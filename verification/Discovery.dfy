/** Stage one of mail sync: each new message gets one stub row and one triage enqueue. */
module Discovery {
  import opened Wrappers
  import JobQueue

  type RowId = string
  type WorkspaceId = string
  type MessageId = string

  datatype Row = Row(workspace: WorkspaceId, message: MessageId)

  type Table = map<RowId, Row>

  /** A call to enqueue triage, carrying the id of the row it is for. */
  datatype TriageCall = TriageCall(id: RowId, row: Row)

  predicate Exists(table: Table, row: Row) {
    exists id :: id in table && table[id] == row
  }

  /** The unique constraint on workspace and external message id. */
  ghost predicate UniqueRows(table: Table) {
    forall i, k :: i in table && k in table && table[i] == table[k] ==> i == k
  }

  function CallsFor(calls: seq<TriageCall>, id: RowId): nat {
    if calls == [] then 0
    else CallsFor(calls[..|calls| - 1], id) + if calls[|calls| - 1].id == id then 1 else 0
  }

  lemma OneMoreCall(calls: seq<TriageCall>, c: TriageCall, id: RowId)
    ensures CallsFor(calls + [c], id) == CallsFor(calls, id) + if c.id == id then 1 else 0
  {
  }

  // ---------------------------------------------------------------- one discovery, undisturbed

  class MailDb {
    var rows: Table
    var calls: seq<TriageCall>

    constructor ()
      ensures rows == map[] && calls == []
    {
      rows, calls := map[], [];
    }

    /** The loop over the fetched messages; `ids` are the identifiers generated for the stubs. */
    method Discover(workspace: WorkspaceId, messages: seq<MessageId>, ids: seq<RowId>)
      requires UniqueRows(rows) && |ids| == |messages|
      requires forall i :: 0 <= i < |ids| ==> ids[i] !in rows
      requires forall i, k :: 0 <= i < k < |ids| ==> ids[i] != ids[k]
      modifies this
      ensures UniqueRows(rows)
      ensures old(calls) <= calls && IsDiscovery(old(rows), rows, calls[|old(calls)|..], workspace, messages)
    {
      ghost var made: seq<TriageCall> := [];
      for n := 0 to |messages|
        invariant UniqueRows(rows) && calls == old(calls) + made
        invariant IsDiscovery(old(rows), rows, made, workspace, messages[..n])
        invariant forall i :: n <= i < |ids| ==> ids[i] !in rows
      {
        var row := Row(workspace, messages[n]);
        assert messages[..n + 1] == messages[..n] + [messages[n]];
        DiscoverOne(old(rows), rows, made, workspace, messages[..n], messages[n], ids[n]);
        if Exists(rows, row) {
          continue;
        }
        AddedRow(rows, ids[n], row);
        rows := rows[ids[n] := row];
        calls := calls + [TriageCall(ids[n], row)];
        made := made + [TriageCall(ids[n], row)];
      }
      assert messages[..|messages|] == messages;
    }
  }

  function Ids(made: seq<TriageCall>): set<RowId> {
    set c | c in made :: c.id
  }

  /** The calls made are one for each new row, and carry its id. */
  ghost predicate OneCallEach(before: Table, after: Table, made: seq<TriageCall>, workspace: WorkspaceId, messages: seq<MessageId>) {
    && after.Keys - before.Keys == Ids(made)
    && (forall i, k :: 0 <= i < k < |made| ==> made[i].id != made[k].id)
    && (forall c :: c in made ==>
          c.id in after && after[c.id] == c.row && c.row.workspace == workspace && c.row.message in messages)
  }

  /** Old rows stay, every message has its row, and each new row has one call. */
  ghost predicate IsDiscovery(before: Table, after: Table, made: seq<TriageCall>, workspace: WorkspaceId, messages: seq<MessageId>) {
    && (forall id :: id in before ==> id in after && after[id] == before[id])
    && (forall m :: m in messages ==> Exists(after, Row(workspace, m)))
    && OneCallEach(before, after, made, workspace, messages)
  }

  lemma CallForNewRow(before: Table, now: Table, made: seq<TriageCall>, workspace: WorkspaceId, messages: seq<MessageId>,
                      m: MessageId, id: RowId)
    requires OneCallEach(before, now, made, workspace, messages) && id !in now && before.Keys <= now.Keys
    ensures var row := Row(workspace, m);
            OneCallEach(before, now[id := row], made + [TriageCall(id, row)], workspace, messages + [m])
  {
    var row := Row(workspace, m);
    var more := made + [TriageCall(id, row)];
    assert Ids(more) == Ids(made) + {id} by {
      assert more[|made|] in more;
      assert forall c :: c in made ==> c in more;
    }
    assert forall c :: c in made ==> c.id != id;
  }

  lemma DiscoverOne(before: Table, now: Table, made: seq<TriageCall>, workspace: WorkspaceId, messages: seq<MessageId>,
                    m: MessageId, id: RowId)
    requires UniqueRows(now) && IsDiscovery(before, now, made, workspace, messages) && id !in now
    ensures var row := Row(workspace, m);
            if Exists(now, row) then IsDiscovery(before, now, made, workspace, messages + [m])
            else IsDiscovery(before, now[id := row], made + [TriageCall(id, row)], workspace, messages + [m])
  {
    if !Exists(now, Row(workspace, m)) {
      AddedRow(now, id, Row(workspace, m));
      CallForNewRow(before, now, made, workspace, messages, m, id);
      hide OneCallEach, Exists, UniqueRows;
    }
  }

  lemma AddedRow(table: Table, id: RowId, row: Row)
    requires UniqueRows(table) && id !in table && !Exists(table, row)
    ensures UniqueRows(table[id := row]) && Exists(table[id := row], row)
    ensures forall r :: Exists(table, r) ==> Exists(table[id := row], r)
    ensures |table[id := row].Keys| == |table.Keys| + 1
  {
    var grown := table[id := row];
    assert grown[id] == row && grown.Keys == table.Keys + {id};
    forall r | Exists(table, r) ensures Exists(grown, r) {
      var k :| k in table && table[k] == r;
      assert grown[k] == r;
    }
  }

  // ---------------------------------------------------------------- many discoveries interleaved

  type RunId = string

  datatype Stage = Checking | Inserting | Enqueueing(id: RowId)

  /** A discovery in progress: the messages before `pos` are dealt with. */
  datatype Progress = Progress(workspace: WorkspaceId, messages: seq<MessageId>, pos: nat, stage: Stage)

  /** `inserted` remembers every row ever inserted; `payload` is the row each triage job is for. */
  datatype State = State(
    now: JobQueue.Time,
    rows: Table,
    inserted: Table,
    runs: map<RunId, Progress>,
    calls: seq<TriageCall>,
    jobs: JobQueue.Rows,
    payload: map<JobQueue.JobId, RowId>)

  datatype Action =
    | Begin(run: RunId, workspace: WorkspaceId, messages: seq<MessageId>)
    | Check(run: RunId)
    | Insert(run: RunId, id: RowId)
    | EnqueueTriage(run: RunId, job: JobQueue.JobId)
    | Delete(workspace: WorkspaceId, removed: set<MessageId>)     // remote deletions
    | JobsMove(jobs: JobQueue.Rows, now: JobQueue.Time)            // workers at work on the queue

  predicate Busy(s: State, run: RunId, stage: Stage) {
    run in s.runs && s.runs[run].pos < |s.runs[run].messages| && s.runs[run].stage == stage
  }

  predicate Enabled(s: State, a: Action) {
    match a
    case Begin(run, _, _) => run !in s.runs
    case Check(run) => Busy(s, run, Checking)
    case Insert(run, id) => Busy(s, run, Inserting) && id !in s.inserted
    case EnqueueTriage(run, job) =>
      run in s.runs && s.runs[run].pos < |s.runs[run].messages| && s.runs[run].stage.Enqueueing? && job !in s.jobs
    case Delete(_, _) => true
    case JobsMove(jobs, _) => jobs.Keys == s.jobs.Keys && forall j :: j in jobs ==> jobs[j].dedupeId == s.jobs[j].dedupeId
  }

  function RowOf(p: Progress): Row
    requires p.pos < |p.messages|
  {
    Row(p.workspace, p.messages[p.pos])
  }

  function TriageDedupeId(message: MessageId): Option<string> {
    Some("triage:" + message)
  }

  function Step(s: State, a: Action): State
    requires Enabled(s, a)
  {
    match a
    case Begin(run, workspace, messages) => s.(runs := s.runs[run := Progress(workspace, messages, 0, Checking)])
    case Check(run) =>
      var p := s.runs[run];
      s.(runs := s.runs[run := if Exists(s.rows, RowOf(p)) then p.(pos := p.pos + 1) else p.(stage := Inserting)])
    case Insert(run, id) =>
      var p := s.runs[run];
      if Exists(s.rows, RowOf(p)) then s.(runs := s.runs[run := p.(pos := p.pos + 1, stage := Checking)])
      else s.(rows := s.rows[id := RowOf(p)], inserted := s.inserted[id := RowOf(p)],
              runs := s.runs[run := p.(stage := Enqueueing(id))])
    case EnqueueTriage(run, job) =>
      var p := s.runs[run];
      var dedupe := TriageDedupeId(RowOf(p).message);
      s.(jobs := JobQueue.EnqueueRows(s.jobs, s.now, job, dedupe, None),
         payload := if JobQueue.HasActiveTwin(s.jobs, dedupe) then s.payload else s.payload[job := p.stage.id],
         calls := s.calls + [TriageCall(p.stage.id, RowOf(p))],
         runs := s.runs[run := p.(pos := p.pos + 1, stage := Checking)])
    case Delete(workspace, removed) =>
      s.(rows := map id | id in s.rows && !(s.rows[id].workspace == workspace && s.rows[id].message in removed) :: s.rows[id])
    case JobsMove(jobs, now) => s.(jobs := jobs, now := now)
  }

  datatype Run = Run(states: seq<State>, acts: seq<Action>)

  ghost predicate Initial(s: State) {
    s.rows == map[] && s.inserted == map[] && s.runs == map[] && s.calls == [] && s.jobs == map[] && s.payload == map[]
  }

  ghost predicate IsRun(r: Run) {
    && |r.states| == |r.acts| + 1
    && Initial(r.states[0])
    && forall i :: 0 <= i < |r.acts| ==>
         Enabled(r.states[i], r.acts[i]) && r.states[i + 1] == Step(r.states[i], r.acts[i])
  }

  predicate Awaits(s: State, run: RunId, id: RowId) {
    run in s.runs && s.runs[run].stage == Enqueueing(id)
  }

  /** A row is awaited by the one run that inserted it, until its one call is made. */
  ghost predicate CallsBalance(s: State, id: RowId) {
    && (forall p, q :: Awaits(s, p, id) && Awaits(s, q, id) ==> p == q)
    && CallsFor(s.calls, id) + (if exists run :: Awaits(s, run, id) then 1 else 0) == (if id in s.inserted then 1 else 0)
  }

  ghost predicate Sound(s: State) {
    && UniqueRows(s.rows)
    && (forall id :: id in s.rows ==> id in s.inserted && s.inserted[id] == s.rows[id])
    && (forall i :: 0 <= i < |s.calls| ==> s.calls[i].id in s.inserted && s.inserted[s.calls[i].id] == s.calls[i].row)
    && (forall run, id :: Awaits(s, run, id) ==>
          && s.runs[run].pos < |s.runs[run].messages|
          && id in s.inserted && s.inserted[id] == RowOf(s.runs[run]))
  }

  lemma StepKeepsRows(s: State, a: Action)
    requires Enabled(s, a) && UniqueRows(s.rows)
    requires forall id :: id in s.rows ==> id in s.inserted && s.inserted[id] == s.rows[id]
    ensures var t := Step(s, a);
            && UniqueRows(t.rows)
            && (forall id :: id in t.rows ==> id in t.inserted && t.inserted[id] == t.rows[id])
            && (forall id :: id in s.inserted ==> id in t.inserted && t.inserted[id] == s.inserted[id])
  {
    if a.Insert? && !Exists(s.rows, RowOf(s.runs[a.run])) {
      AddedRow(s.rows, a.id, RowOf(s.runs[a.run]));
    }
  }

  /** A deletion takes exactly the named messages of its workspace. */
  lemma DeletionIsExact(s: State, workspace: WorkspaceId, removed: set<MessageId>)
    ensures var t := Step(s, Delete(workspace, removed));
            && (forall id :: id in t.rows <==> id in s.rows && !(s.rows[id].workspace == workspace && s.rows[id].message in removed))
            && t.inserted == s.inserted && t.calls == s.calls && t.runs == s.runs
  {
  }

  /** A run awaits a row it has just inserted, or has been awaiting without moving. */
  lemma AwaitsAfterStep(s: State, a: Action, run: RunId, id: RowId)
    requires Enabled(s, a)
    ensures var t := Step(s, a);
            Awaits(t, run, id) <==>
            if a.Insert? && a.run == run && !Exists(s.rows, RowOf(s.runs[run])) then a.id == id
            else Awaits(s, run, id) && !(a.EnqueueTriage? && a.run == run)
    ensures Awaits(Step(s, a), run, id) && Awaits(s, run, id) ==> Step(s, a).runs[run] == s.runs[run]
    ensures Awaits(Step(s, a), run, id) && !Awaits(s, run, id) ==>
              && Step(s, a).runs[run].pos == s.runs[run].pos < |s.runs[run].messages|
              && id in Step(s, a).inserted && Step(s, a).inserted[id] == RowOf(Step(s, a).runs[run])
  {
  }

  lemma StepKeepsSound(s: State, a: Action)
    requires Enabled(s, a) && Sound(s)
    ensures Sound(Step(s, a))
  {
    var t := Step(s, a);
    StepKeepsRows(s, a);
    forall run, id | Awaits(t, run, id)
      ensures run in t.runs && t.runs[run].pos < |t.runs[run].messages| && id in t.inserted && t.inserted[id] == RowOf(t.runs[run])
    {
      AwaitsAfterStep(s, a, run, id);
    }
    assert a.EnqueueTriage? ==> Awaits(s, a.run, s.runs[a.run].stage.id);
    hide JobQueue.EnqueueRows, JobQueue.HasActiveTwin, Exists, UniqueRows;
    assert t.calls == s.calls || (a.EnqueueTriage? && t.calls == s.calls + [TriageCall(s.runs[a.run].stage.id, RowOf(s.runs[a.run]))]);
  }

  lemma StepKeepsBalance(s: State, a: Action, id: RowId)
    requires Enabled(s, a) && Sound(s) && CallsBalance(s, id)
    ensures CallsBalance(Step(s, a), id)
  {
    var t := Step(s, a);
    hide JobQueue.EnqueueRows, JobQueue.HasActiveTwin, Exists, UniqueRows, CallsFor;
    forall run ensures Awaits(t, run, id) <==>
        if a.Insert? && a.run == run && !Exists(s.rows, RowOf(s.runs[run])) then a.id == id
        else Awaits(s, run, id) && !(a.EnqueueTriage? && a.run == run)
    {
      AwaitsAfterStep(s, a, run, id);
    }
    if a.EnqueueTriage? {
      var awaited := s.runs[a.run].stage.id;
      OneMoreCall(s.calls, TriageCall(awaited, RowOf(s.runs[a.run])), id);
      assert Awaits(s, a.run, awaited);
    } else if a.Insert? && !Exists(s.rows, RowOf(s.runs[a.run])) {
      assert t.calls == s.calls;
      assert id == a.id ==> Awaits(t, a.run, id);
      assert forall q :: !Awaits(s, q, a.id);
    } else {
      assert t.calls == s.calls && t.inserted == s.inserted;
    }
  }

  lemma {:induction false} RunSound(r: Run, n: nat, id: RowId)
    requires IsRun(r) && n <= |r.acts|
    ensures Sound(r.states[n]) && CallsBalance(r.states[n], id)
  {
    if n > 0 {
      RunSound(r, n - 1, id);
      StepKeepsSound(r.states[n - 1], r.acts[n - 1]);
      StepKeepsBalance(r.states[n - 1], r.acts[n - 1], id);
    }
  }

  /** At most one row per workspace and message, whatever is interleaved. */
  lemma OneRowPerMessage(r: Run, n: nat, i: RowId, k: RowId)
    requires IsRun(r) && n <= |r.acts| && i in r.states[n].rows && k in r.states[n].rows
    requires r.states[n].rows[i] == r.states[n].rows[k]
    ensures i == k
  {
    RunSound(r, n, i);
  }

  /** Each inserted row gets at most one triage call, exactly one unless its run is still about to make it. */
  lemma OneCallPerRow(r: Run, n: nat, id: RowId)
    requires IsRun(r) && n <= |r.acts|
    ensures CallsFor(r.states[n].calls, id) <= 1
    ensures id !in r.states[n].inserted ==> CallsFor(r.states[n].calls, id) == 0
    ensures id in r.states[n].inserted ==>
              (CallsFor(r.states[n].calls, id) == 1 <==> forall run :: !Awaits(r.states[n], run, id))
  {
    RunSound(r, n, id);
  }

  ghost predicate Finished(s: State) {
    forall run :: run in s.runs ==> s.runs[run].pos == |s.runs[run].messages|
  }

  /** Without deletions, a message that a run has passed has its row. */
  ghost predicate Covered(s: State) {
    forall run, i :: run in s.runs && 0 <= i < s.runs[run].pos && i < |s.runs[run].messages| ==>
      Exists(s.rows, Row(s.runs[run].workspace, s.runs[run].messages[i]))
  }

  lemma StepKeepsCovered(s: State, a: Action)
    requires Enabled(s, a) && Sound(s) && Covered(s) && !a.Delete?
    requires forall run, id :: Awaits(s, run, id) ==> id in s.rows
    ensures Covered(Step(s, a))
    ensures forall run, id :: Awaits(Step(s, a), run, id) ==> id in Step(s, a).rows
  {
    hide JobQueue.EnqueueRows, JobQueue.HasActiveTwin, CallsFor, UniqueRows;
    var t := Step(s, a);
    forall row | Exists(s.rows, row) ensures Exists(t.rows, row) {
      var id :| id in s.rows && s.rows[id] == row;
      assert t.rows[id] == row;
    }
    forall run, i | run in t.runs && 0 <= i < t.runs[run].pos && i < |t.runs[run].messages|
      ensures Exists(t.rows, Row(t.runs[run].workspace, t.runs[run].messages[i]))
    {
      if run in s.runs && i < s.runs[run].pos {
        assert Exists(s.rows, Row(s.runs[run].workspace, s.runs[run].messages[i]));
      } else if a.EnqueueTriage? {
        assert Awaits(s, run, s.runs[run].stage.id);
      }
    }
    forall run, id | Awaits(t, run, id) ensures id in t.rows {
      assert !(a.Insert? && a.run == run) ==> Awaits(s, run, id);
    }
  }

  lemma {:induction false} RunCovered(r: Run, n: nat)
    requires IsRun(r) && n <= |r.acts| && forall i :: 0 <= i < |r.acts| ==> !r.acts[i].Delete?
    ensures Covered(r.states[n]) && forall run, id :: Awaits(r.states[n], run, id) ==> id in r.states[n].rows
  {
    if n > 0 {
      RunCovered(r, n - 1);
      RunSound(r, n - 1, "");
      StepKeepsCovered(r.states[n - 1], r.acts[n - 1]);
    }
  }

  /**
    * Exactly once: when all discoveries are done, however they were interleaved, every message fetched has
    * one row, and that row has one triage call.
    */
  lemma ExactlyOnce(r: Run, n: nat, run: RunId, i: nat) returns (id: RowId)
    requires IsRun(r) && n <= |r.acts| && Finished(r.states[n])
    requires forall k :: 0 <= k < |r.acts| ==> !r.acts[k].Delete?
    requires run in r.states[n].runs && i < |r.states[n].runs[run].messages|
    ensures var s := r.states[n];
            var row := Row(s.runs[run].workspace, s.runs[run].messages[i]);
            && id in s.rows && s.rows[id] == row
            && (forall k :: k in s.rows && s.rows[k] == row ==> k == id)
            && CallsFor(s.calls, id) == 1
  {
    var s := r.states[n];
    var row := Row(s.runs[run].workspace, s.runs[run].messages[i]);
    RunCovered(r, n);
    assert Exists(s.rows, row);
    id :| id in s.rows && s.rows[id] == row;
    RunSound(r, n, id);
    forall q ensures !Awaits(s, q, id) {
      if q in s.runs {
        assert s.runs[q].pos == |s.runs[q].messages|;
      }
    }
  }

  // ---------------------------------------------------------------- where the promise ends

  /** A triage call creates a job exactly when no active job carries the message's deduplication id. */
  lemma TriageJobCreated(s: State, run: RunId, job: JobQueue.JobId)
    requires Enabled(s, EnqueueTriage(run, job))
    ensures var t := Step(s, EnqueueTriage(run, job));
            (job in t.jobs <==> !JobQueue.HasActiveTwin(s.jobs, TriageDedupeId(RowOf(s.runs[run]).message)))
            && (job in t.jobs ==> job in t.payload && t.payload[job] == s.runs[run].stage.id)
  {
  }

  /** Every triage job is for an inserted row whose call has been made, under that row's message id. */
  ghost predicate PayloadSound(s: State) {
    && s.payload.Keys == s.jobs.Keys
    && forall j :: j in s.jobs ==>
         && s.payload[j] in s.inserted
         && s.jobs[j].dedupeId == TriageDedupeId(s.inserted[s.payload[j]].message)
         && CallsFor(s.calls, s.payload[j]) >= 1
  }

  lemma EnqueueKeepsPayload(s: State, run: RunId, job: JobQueue.JobId)
    requires Enabled(s, EnqueueTriage(run, job)) && Sound(s) && PayloadSound(s)
    ensures PayloadSound(Step(s, EnqueueTriage(run, job)))
  {
    hide Exists, UniqueRows, JobQueue.HasActiveTwin, CallsFor;
    var t, id := Step(s, EnqueueTriage(run, job)), s.runs[run].stage.id;
    assert Awaits(s, run, id);
    var c := TriageCall(id, RowOf(s.runs[run]));
    forall k ensures CallsFor(t.calls, k) == CallsFor(s.calls, k) + if k == id then 1 else 0 {
      OneMoreCall(s.calls, c, k);
    }
    assert t.inserted == s.inserted && id in t.inserted && t.calls == s.calls + [c];
    assert forall j :: j in t.jobs && j != job ==> j in s.jobs && t.jobs[j] == s.jobs[j] && t.payload[j] == s.payload[j];
  }

  lemma StepKeepsPayload(s: State, a: Action)
    requires Enabled(s, a) && Sound(s) && PayloadSound(s)
    ensures PayloadSound(Step(s, a))
  {
    if a.EnqueueTriage? {
      EnqueueKeepsPayload(s, a.run, a.job);
    } else {
      StepKeepsRows(s, a);
      hide CallsFor, Exists, UniqueRows, JobQueue.EnqueueRows, JobQueue.HasActiveTwin;
      var t := Step(s, a);
      assert t.calls == s.calls && t.payload == s.payload;
    }
  }

  lemma {:induction false} RunPayload(r: Run, n: nat)
    requires IsRun(r) && n <= |r.acts|
    ensures PayloadSound(r.states[n])
  {
    hide Step, Enabled, Sound;
    if n > 0 {
      RunPayload(r, n - 1);
      RunSound(r, n - 1, "");
      StepKeepsPayload(r.states[n - 1], r.acts[n - 1]);
    }
  }

  /** An active triage job for a row of the given message. */
  ghost predicate TriageActive(s: State, message: MessageId, id: RowId) {
    exists j :: j in s.jobs && JobQueue.Active(s.jobs[j]) && j in s.payload && s.payload[j] == id
                && id in s.inserted && s.inserted[id].message == message
  }

  /**
    * In every run a triage call makes no job exactly when another row of the same message id has an active
    * one; as long as both rows are there, they are of different workspaces.
    */
  lemma TriageSkippedExactly(r: Run, n: nat, run: RunId, job: JobQueue.JobId)
    requires IsRun(r) && n < |r.acts| && r.acts[n] == EnqueueTriage(run, job)
    ensures Enabled(r.states[n], EnqueueTriage(run, job))
    ensures var s, row, id := r.states[n], RowOf(r.states[n].runs[run]), r.states[n].runs[run].stage.id;
            && (job !in r.states[n + 1].jobs <==> exists k :: TriageActive(s, row.message, k))
            && (forall k :: TriageActive(s, row.message, k) ==> k != id)
            && (forall k :: TriageActive(s, row.message, k) && k in s.rows && id in s.rows ==> s.rows[k].workspace != s.rows[id].workspace)
  {
    var s := r.states[n];
    assert Enabled(s, r.acts[n]) && r.states[n + 1] == Step(s, r.acts[n]);
    var row, id := RowOf(s.runs[run]), s.runs[run].stage.id;
    RunPayload(r, n);
    RunSound(r, n, id);
    TriageJobCreated(s, run, job);
    TwinsAreTriageJobs(s, row.message);
    assert Awaits(s, run, id);
    assert CallsFor(s.calls, id) == 0;
  }

  lemma TwinsAreTriageJobs(s: State, message: MessageId)
    requires PayloadSound(s)
    ensures JobQueue.HasActiveTwin(s.jobs, TriageDedupeId(message)) <==> exists k :: TriageActive(s, message, k)
  {
    hide CallsFor;
    forall j | j in s.jobs
      ensures s.jobs[j].dedupeId == TriageDedupeId(message) <==> s.inserted[s.payload[j]].message == message
    {
      var other := s.inserted[s.payload[j]].message;
      assert ("triage:" + other)[7..] == other && ("triage:" + message)[7..] == message;
    }
    if JobQueue.HasActiveTwin(s.jobs, TriageDedupeId(message)) {
      var j :| j in s.jobs && JobQueue.Active(s.jobs[j]) && s.jobs[j].dedupeId == TriageDedupeId(message);
      assert TriageActive(s, message, s.payload[j]);
    }
  }

  function Extend(r: Run, a: Action): (q: Run)
    requires IsRun(r) && Enabled(r.states[|r.acts|], a)
    ensures IsRun(q) && |q.acts| == |r.acts| + 1 && |q.states| == |q.acts| + 1 && q.states[|q.acts|] == Step(r.states[|r.acts|], a)
  {
    Run(r.states + [Step(r.states[|r.states| - 1], a)], r.acts + [a])
  }

  const FOUND := map["r1" := Row("w1", "m")]

  /** One workspace's discovery of one message, up to the insertion of its row. */
  lemma FirstWorkspaceInserts() returns (r: Run)
    ensures IsRun(r) && |r.acts| == 3 && |r.states| == 4
    ensures r.states[3] == State(0, FOUND, FOUND, map["A" := Progress("w1", ["m"], 0, Enqueueing("r1"))], [], map[], map[])
  {
    var p := Progress("w1", ["m"], 0, Checking);
    r := Run([State(0, map[], map[], map[], [], map[], map[])], []);
    assert IsRun(r);
    hide IsRun, Extend, JobQueue.EnqueueRows, JobQueue.HasActiveTwin;
    r := Extend(r, Begin("A", "w1", ["m"]));
    assert r.states[1] == State(0, map[], map[], map["A" := p], [], map[], map[]);
    r := Extend(r, Check("A"));
    assert r.states[2] == State(0, map[], map[], map["A" := p.(stage := Inserting)], [], map[], map[]);
    r := Extend(r, Insert("A", "r1"));
  }

  /** The same discovery, done. */
  lemma FirstWorkspaceDiscovers() returns (r: Run)
    ensures IsRun(r) && |r.acts| == 4 && |r.states| == 5
    ensures r.states[4] == State(0, FOUND, FOUND, map["A" := Progress("w1", ["m"], 1, Checking)],
                                 [TriageCall("r1", Row("w1", "m"))],
                                 map["j1" := JobQueue.NewJob(TriageDedupeId("m"), 0)], map["j1" := "r1"])
  {
    hide IsRun, Extend, Exists;
    r := FirstWorkspaceInserts();
    r := Extend(r, EnqueueTriage("A", "j1"));
  }

  /**
    * The deduplication id names the message but not the workspace: when two workspaces receive one message
    * id, both rows are inserted and both calls are made, but only the first row has a triage job.
    */
  lemma SharedMessageIdIsTriagedOnce() returns (r: Run)
    ensures IsRun(r) && |r.acts| == 8 && Finished(r.states[8])
    ensures r.states[8].rows == map["r1" := Row("w1", "m"), "r2" := Row("w2", "m")]
    ensures r.states[8].calls == [TriageCall("r1", Row("w1", "m")), TriageCall("r2", Row("w2", "m"))]
    ensures r.states[8].payload == map["j1" := "r1"] && r.states[8].jobs.Keys == {"j1"}
  {
    hide IsRun, Extend;
    r := FirstWorkspaceDiscovers();
    var s4, p := r.states[4], Progress("w2", ["m"], 0, Checking);
    r := Extend(r, Begin("B", "w2", ["m"]));
    assert r.states[5] == s4.(runs := s4.runs["B" := p]);
    r := Extend(r, Check("B"));
    assert r.states[6] == s4.(runs := s4.runs["B" := p.(stage := Inserting)]);
    r := Extend(r, Insert("B", "r2"));
    assert r.states[7].runs["B"] == p.(stage := Enqueueing("r2"));
    assert r.states[7].jobs["j1"] == s4.jobs["j1"];
    assert JobQueue.HasActiveTwin(r.states[7].jobs, TriageDedupeId("m"));
    r := Extend(r, EnqueueTriage("B", "j2"));
  }
}
