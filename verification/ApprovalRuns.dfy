/** The send and delete handlers, the approval routes and the expiry job interleaved over one table. */
module ApprovalRuns {
  import opened Wrappers
  import opened Approval

  type RequestId = string

  datatype Stage = Validated | Performed

  /** A request whose approval was valid at `validatedAt` and whose handler has not ended. */
  datatype Handler = Handler(approval: ApprovalId, tenantId: string, userId: string, target: Target, actionType: ActionType,
                             validatedAt: Time, stage: Stage)

  datatype State = State(now: Time, rows: Rows, handlers: map<RequestId, Handler>, performed: seq<Handler>)

  datatype Action =
    | Create(id: ApprovalId, tenantId: string, userId: string, target: Target, actionType: ActionType, expiry: Option<int>)
    | Approve(id: ApprovalId, tenantId: string, decider: string)
    | Reject(id: ApprovalId, tenantId: string, decider: string)
    | ExpireStale
    | Begin(req: RequestId, id: ApprovalId, tenantId: string, userId: string, target: Target, actionType: ActionType)
    | Perform(req: RequestId, succeeds: bool)                // the provider sends or deletes
    | Mark(req: RequestId)
    | Abandon(req: RequestId)                                // the process dies
    | Tick(dt: nat)

  predicate Enabled(s: State, a: Action) {
    match a
    case Create(id, _, _, _, _, _) => id !in s.rows
    case Begin(req, _, _, _, _, actionType) => req !in s.handlers && (actionType == SEND_EMAIL || actionType == DELETE_EVENT)
    case Perform(req, _) => req in s.handlers && s.handlers[req].stage == Validated
    case Mark(req) => req in s.handlers && s.handlers[req].stage == Performed
    case Abandon(req) => req in s.handlers
    case _ => true
  }

  function Step(s: State, a: Action): State
    requires Enabled(s, a)
  {
    match a
    case Create(id, tenant, user, target, kind, expiry) =>
      s.(rows := s.rows[id := NewRow(s.now, tenant, user, target, kind, expiry)])
    case Approve(id, tenant, decider) => s.(rows := ApproveRows(s.rows, s.now, id, tenant, decider))
    case Reject(id, tenant, decider) => s.(rows := RejectRows(s.rows, s.now, id, tenant, decider))
    case ExpireStale => s.(rows := ExpireRows(s.rows, s.now))
    case Begin(req, id, tenant, user, target, kind) =>
      var t := s.(rows := ValidateRows(s.rows, s.now, id, tenant, user, kind));
      if Validate(s.rows, s.now, id, tenant, user, kind).Valid?
      then t.(handlers := s.handlers[req := Handler(id, tenant, user, target, kind, s.now, Validated)]) else t
    case Perform(req, succeeds) =>
      var h := s.handlers[req].(stage := Performed);
      if succeeds then s.(handlers := s.handlers[req := h], performed := s.performed + [h])
      else s.(handlers := s.handlers - {req})
    case Mark(req) =>
      var id := s.handlers[req].approval;
      s.(rows := if id in s.rows then SetStatus(s.rows, id, EXECUTED) else s.rows, handlers := s.handlers - {req})
    case Abandon(req) => s.(handlers := s.handlers - {req})
    case Tick(dt) => s.(now := s.now + dt)
  }

  datatype Run = Run(states: seq<State>, acts: seq<Action>)

  ghost predicate Initial(s: State) {
    s.rows == map[] && s.handlers == map[] && s.performed == []
  }

  ghost predicate IsRun(r: Run) {
    && |r.states| == |r.acts| + 1
    && Initial(r.states[0])
    && forall i :: 0 <= i < |r.acts| ==>
         Enabled(r.states[i], r.acts[i]) && r.states[i + 1] == Step(r.states[i], r.acts[i])
  }

  /** A request validates, in time or too late, approval `id` while another handler is working on it. */
  ghost predicate Clashes(s: State, a: Action, id: ApprovalId) {
    && a.Begin? && a.id == id
    && (exists req :: req in s.handlers && s.handlers[req].approval == id)
    && var v := Validate(s.rows, s.now, id, a.tenantId, a.userId, a.actionType);
       v.Valid? || v.TooLate?
  }

  /** No request on `id` clashes with a handler at work; handlers that do not overlap never do. */
  ghost predicate NoClash(r: Run, n: nat, id: ApprovalId)
    requires IsRun(r) && n <= |r.acts|
  {
    forall i :: 0 <= i < n ==> !Clashes(r.states[i], r.acts[i], id)
  }

  // ---------------------------------------------------------------- every interleaving

  /** The row an execution relies on: same tenant, user and action, approved and validated in time. */
  ghost predicate Authorised(rows: Rows, h: Handler) {
    && h.approval in rows
    && var row := rows[h.approval];
       && row.tenantId == h.tenantId && row.userId == h.userId && row.actionType == h.actionType
       && (row.status == APPROVED || row.status == EXECUTED || row.status == EXPIRED)
       && row.decidedAt.Some? && row.decidedBy.Some?
       && row.decidedAt.value <= h.validatedAt <= row.expiresAt
  }

  ghost predicate Sound(s: State) {
    && (forall id :: id in s.rows && s.rows[id].status == APPROVED ==>
          && s.rows[id].decidedAt.Some? && s.rows[id].decidedBy.Some?
          && s.rows[id].decidedAt.value <= s.now && s.rows[id].decidedAt.value <= s.rows[id].expiresAt)
    && (forall req :: req in s.handlers ==> Authorised(s.rows, s.handlers[req]))
    && (forall i :: 0 <= i < |s.performed| ==> Authorised(s.rows, s.performed[i]))
  }

  function Rank(status: Status): nat {
    match status
    case PENDING => 0
    case APPROVED => 1
    case _ => 2
  }

  /** What a step may do to one row: its identity stays, and its rank never falls. */
  lemma RowAfterStep(s: State, a: Action, id: ApprovalId)
    requires Enabled(s, a) && id in s.rows
    ensures id in Step(s, a).rows
    ensures var before, after := s.rows[id], Step(s, a).rows[id];
            && after.tenantId == before.tenantId && after.userId == before.userId
            && after.actionType == before.actionType && after.target == before.target && after.expiresAt == before.expiresAt
            && Rank(before.status) <= Rank(after.status)
            && (before.status != PENDING ==> after.decidedAt == before.decidedAt && after.decidedBy == before.decidedBy)
            && (before.status == APPROVED && after.status != APPROVED ==> after.status == EXPIRED || after.status == EXECUTED)
            && (Rank(before.status) == 2 ==> after == before || (a.Mark? && s.handlers[a.req].approval == id))
            && (a.ExpireStale? && before.status == PENDING ==> (after.status == EXPIRED <==> before.expiresAt < s.now))
            && (a.Reject? && a.id == id && a.tenantId == before.tenantId && before.status == PENDING ==> after.status == REJECTED)
  {
  }

  lemma StepKeepsAuthorised(s: State, a: Action, h: Handler)
    requires Enabled(s, a) && Authorised(s.rows, h)
    requires forall req :: req in s.handlers ==> Authorised(s.rows, s.handlers[req])
    ensures Authorised(Step(s, a).rows, h)
  {
    RowAfterStep(s, a, h.approval);
  }

  lemma StepKeepsSound(s: State, a: Action)
    requires Enabled(s, a) && Sound(s)
    ensures Sound(Step(s, a))
  {
    var t := Step(s, a);
    forall req | req in t.handlers ensures Authorised(t.rows, t.handlers[req]) {
      if a.Begin? && a.req == req {
      } else if req in s.handlers {
        assert Authorised(s.rows, s.handlers[req]);
        StepKeepsAuthorised(s, a, s.handlers[req]);
      }
    }
    forall i | 0 <= i < |t.performed| ensures Authorised(t.rows, t.performed[i]) {
      if i < |s.performed| {
        StepKeepsAuthorised(s, a, s.performed[i]);
      }
    }
  }

  lemma {:induction false} RunSound(r: Run, n: nat)
    requires IsRun(r) && n <= |r.acts|
    ensures Sound(r.states[n])
  {
    if n > 0 {
      RunSound(r, n - 1);
      StepKeepsSound(r.states[n - 1], r.acts[n - 1]);
    }
  }

  /**
    * Nothing is sent or deleted without an approval of the same tenant, user and action that was granted, and
    * validated, no later than it expired: in every interleaving, handlers of one approval included.
    */
  lemma EveryExecutionIsAuthorised(r: Run, n: nat, i: nat)
    requires IsRun(r) && n <= |r.acts| && i < |r.states[n].performed|
    ensures var h := r.states[n].performed[i];
            && h.approval in r.states[n].rows
            && r.states[n].rows[h.approval].tenantId == h.tenantId
            && r.states[n].rows[h.approval].userId == h.userId
            && r.states[n].rows[h.approval].actionType == h.actionType
            && r.states[n].rows[h.approval].decidedAt.Some?
            && r.states[n].rows[h.approval].decidedAt.value <= h.validatedAt <= r.states[n].rows[h.approval].expiresAt
            && (r.states[n].rows[h.approval].status != REJECTED && r.states[n].rows[h.approval].status != PENDING)
  {
    RunSound(r, n);
    assert Authorised(r.states[n].rows, r.states[n].performed[i]);
  }

  /** Status ranks never fall, whatever is interleaved. */
  lemma {:induction false} RankNeverFalls(r: Run, i: nat, n: nat, id: ApprovalId)
    requires IsRun(r) && i <= n <= |r.acts| && id in r.states[i].rows
    ensures id in r.states[n].rows && Rank(r.states[i].rows[id].status) <= Rank(r.states[n].rows[id].status)
  {
    hide Step, Enabled;
    if i < n {
      RankNeverFalls(r, i, n - 1, id);
      RowAfterStep(r.states[n - 1], r.acts[n - 1], id);
    }
  }

  // ---------------------------------------------------------------- counting executions

  datatype Event = StatusChanged | Executed | Marked | Lost

  /** Lost: the handler died after the provider had acted and before the approval was marked. */
  ghost predicate Happens(s: State, a: Action, e: Event, id: ApprovalId)
    requires Enabled(s, a)
  {
    match e
    case StatusChanged => id in s.rows && id in Step(s, a).rows && s.rows[id].status != Step(s, a).rows[id].status
    case Executed => a.Perform? && a.succeeds && s.handlers[a.req].approval == id
    case Marked => a.Mark? && s.handlers[a.req].approval == id
    case Lost => a.Abandon? && s.handlers[a.req].approval == id && s.handlers[a.req].stage == Performed
  }

  ghost function Tally(r: Run, n: nat, e: Event, id: ApprovalId): nat
    requires IsRun(r) && n <= |r.acts|
  {
    if n == 0 then 0
    else Tally(r, n - 1, e, id) + if Happens(r.states[n - 1], r.acts[n - 1], e, id) then 1 else 0
  }

  /** The handlers that have acted on the approval and not yet marked it. */
  ghost function InHand(s: State, id: ApprovalId): set<RequestId> {
    set req | req in s.handlers && s.handlers[req].approval == id && s.handlers[req].stage == Performed
  }

  lemma InHandAfterStep(s: State, a: Action, id: ApprovalId)
    requires Enabled(s, a)
    ensures Happens(s, a, Executed, id) ==> a.req !in InHand(s, id) && InHand(Step(s, a), id) == InHand(s, id) + {a.req}
    ensures Happens(s, a, Marked, id) || Happens(s, a, Lost, id) ==>
              a.req in InHand(s, id) && InHand(Step(s, a), id) == InHand(s, id) - {a.req}
    ensures !Happens(s, a, Executed, id) && !Happens(s, a, Marked, id) && !Happens(s, a, Lost, id) ==>
              InHand(Step(s, a), id) == InHand(s, id)
  {
    hide ApproveRows, RejectRows, ExpireRows, ValidateRows, Validate, SetStatus, NewRow;
  }

  /** Whether an approval is EXECUTED changes only by marking it, and never back. */
  lemma ExecutedByMarkOnly(s: State, a: Action, id: ApprovalId)
    requires Enabled(s, a) && Sound(s)
    ensures Happens(s, a, Marked, id) ==> id in s.rows
    ensures id in Step(s, a).rows ==>
              (Step(s, a).rows[id].status == EXECUTED <==>
               Happens(s, a, Marked, id) || (id in s.rows && s.rows[id].status == EXECUTED))
  {
    if Happens(s, a, Marked, id) {
      assert Authorised(s.rows, s.handlers[a.req]);
    }
  }

  /** An approval that has been used stays used: nobody's later request on it is valid, whatever is interleaved. */
  lemma {:induction false} UsedApprovalStaysUsed(r: Run, i: nat, n: nat, id: ApprovalId)
    requires IsRun(r) && i <= n <= |r.acts| && id in r.states[i].rows && r.states[i].rows[id].status == EXECUTED
    ensures id in r.states[n].rows && r.states[n].rows[id].status == EXECUTED
    ensures forall tenant, user, kind :: !Validate(r.states[n].rows, r.states[n].now, id, tenant, user, kind).Valid?
  {
    hide Step, Enabled, Sound, Happens;
    if i < n {
      UsedApprovalStaysUsed(r, i, n - 1, id);
      RunSound(r, n - 1);
      ExecutedByMarkOnly(r.states[n - 1], r.acts[n - 1], id);
      RowAfterStep(r.states[n - 1], r.acts[n - 1], id);
    }
  }

  ghost predicate Used(s: State, id: ApprovalId) {
    id in s.rows && s.rows[id].status == EXECUTED
  }

  /**
    * In every run, overlapping handlers included: the executions on an approval are the marked ones, those whose
    * handler was lost before the mark, and those still in a handler's hands; and the approval is EXECUTED exactly
    * if one was marked.
    */
  lemma {:induction false} ExecutionsAreCounted(r: Run, n: nat, id: ApprovalId)
    requires IsRun(r) && n <= |r.acts|
    ensures Tally(r, n, Executed, id) == Tally(r, n, Marked, id) + Tally(r, n, Lost, id) + |InHand(r.states[n], id)|
    ensures Used(r.states[n], id) <==> Tally(r, n, Marked, id) >= 1
  {
    hide Step, Enabled, Happens, InHand, Sound;
    if n > 0 {
      ExecutionsAreCounted(r, n - 1, id);
      RunSound(r, n - 1);
      var s, a := r.states[n - 1], r.acts[n - 1];
      InHandAfterStep(s, a, id);
      ExecutedByMarkOnly(s, a, id);
      OneEventAtATime(s, a, id);
      if id in s.rows {
        RowAfterStep(s, a, id);
      }
    } else {
      NothingInHand(r.states[0], id);
    }
  }

  lemma OneEventAtATime(s: State, a: Action, id: ApprovalId)
    requires Enabled(s, a)
    ensures Happens(s, a, Executed, id) ==> !Happens(s, a, Marked, id) && !Happens(s, a, Lost, id)
    ensures Happens(s, a, Marked, id) ==> !Happens(s, a, Lost, id)
    ensures Happens(s, a, Marked, id) && id in s.rows ==> id in Step(s, a).rows
  {
  }

  lemma NothingInHand(s: State, id: ApprovalId)
    requires Initial(s)
    ensures InHand(s, id) == {} && !Used(s, id)
  {
  }

  /** So an approval has authorised at most one execution exactly if marked, lost and in hand make at most one. */
  lemma AtMostOneExecutionExactly(r: Run, n: nat, id: ApprovalId)
    requires IsRun(r) && n <= |r.acts|
    ensures Tally(r, n, Executed, id) <= 1 <==> Tally(r, n, Marked, id) + Tally(r, n, Lost, id) + |InHand(r.states[n], id)| <= 1
    ensures Used(r.states[n], id) && Tally(r, n, Executed, id) <= 1 ==>
              Tally(r, n, Marked, id) == 1 && Tally(r, n, Lost, id) == 0 && InHand(r.states[n], id) == {}
  {
    ExecutionsAreCounted(r, n, id);
  }

  // ---------------------------------------------------------------- without clashes

  /** At most one handler works on `id`, and while it does the approval is granted. */
  ghost predicate Exclusive(s: State, id: ApprovalId) {
    && (forall p, q :: p in s.handlers && q in s.handlers && s.handlers[p].approval == id && s.handlers[q].approval == id ==> p == q)
    && (forall req :: req in s.handlers && s.handlers[req].approval == id ==> id in s.rows && s.rows[id].status == APPROVED)
  }

  /** An approval stays with the one handler working on it through every step but a clash. */
  lemma ExclusionLostExactly(s: State, a: Action, id: ApprovalId)
    requires Enabled(s, a) && Exclusive(s, id)
    ensures Exclusive(Step(s, a), id) <==> !Clashes(s, a, id)
  {
    if Clashes(s, a, id) {
      ClashBreaksExclusion(s, a, id);
    } else {
      OtherStepsKeepExclusive(s, a, id);
    }
  }

  lemma ClashBreaksExclusion(s: State, a: Action, id: ApprovalId)
    requires Enabled(s, a) && Exclusive(s, id) && Clashes(s, a, id)
    ensures !Exclusive(Step(s, a), id)
  {
    var req :| req in s.handlers && s.handlers[req].approval == id;
    var t := Step(s, a);
    assert req != a.req && t.handlers[req] == s.handlers[req];
    assert (a.req in t.handlers && t.handlers[a.req].approval == id) || t.rows[id].status == EXPIRED;
  }

  lemma OtherStepsKeepExclusive(s: State, a: Action, id: ApprovalId)
    requires Enabled(s, a) && Exclusive(s, id) && !Clashes(s, a, id)
    ensures Exclusive(Step(s, a), id)
  {
    var t := Step(s, a);
    forall req | req in t.handlers && t.handlers[req].approval == id ensures id in t.rows && t.rows[id].status == APPROVED {
      if !(a.Begin? && a.req == req) {
        assert s.handlers[req].approval == id;
        assert a.Mark? ==> s.handlers[a.req].approval != id;
      }
    }
  }

  ghost predicate AlwaysExclusive(r: Run, n: nat, id: ApprovalId)
    requires IsRun(r) && n <= |r.acts|
  {
    forall i :: 0 <= i <= n ==> Exclusive(r.states[i], id)
  }

  /** In every run, an approval is never shared, nor taken from its handler, exactly if no request on it ever clashes. */
  lemma {:induction false} ExclusionHoldsExactly(r: Run, n: nat, id: ApprovalId)
    requires IsRun(r) && n <= |r.acts|
    ensures AlwaysExclusive(r, n, id) <==> NoClash(r, n, id)
  {
    hide Step, Enabled, Clashes;
    if n > 0 {
      hide Exclusive;
      ExclusionHoldsExactly(r, n - 1, id);
      assert AlwaysExclusive(r, n, id) <==> AlwaysExclusive(r, n - 1, id) && Exclusive(r.states[n], id);
      assert NoClash(r, n, id) <==> NoClash(r, n - 1, id) && !Clashes(r.states[n - 1], r.acts[n - 1], id);
      if AlwaysExclusive(r, n - 1, id) {
        ExclusionLostExactly(r.states[n - 1], r.acts[n - 1], id);
      }
    }
  }

  /** Statuses in the order they can follow each other: EXECUTED may follow EXPIRED, if a late handler marks it. */
  function Place(status: Status): nat {
    match status
    case PENDING => 0
    case APPROVED => 1
    case EXECUTED => 3
    case _ => 2
  }

  /** In every run an approval changes status at most three times. */
  lemma {:induction false} AtMostThreeStatusChanges(r: Run, n: nat, id: ApprovalId)
    requires IsRun(r) && n <= |r.acts|
    ensures id !in r.states[n].rows ==> Tally(r, n, StatusChanged, id) == 0
    ensures id in r.states[n].rows ==> Tally(r, n, StatusChanged, id) <= Place(r.states[n].rows[id].status) <= 3
  {
    if n > 0 {
      AtMostThreeStatusChanges(r, n - 1, id);
      var s, a := r.states[n - 1], r.acts[n - 1];
      if id in s.rows {
        RowAfterStep(s, a, id);
      }
    }
  }

  /** Without a clash on it an approval changes status at most twice, each time to a higher rank. */
  lemma {:induction false} AtMostTwoStatusChanges(r: Run, n: nat, id: ApprovalId)
    requires IsRun(r) && n <= |r.acts| && NoClash(r, n, id)
    ensures id !in r.states[n].rows ==> Tally(r, n, StatusChanged, id) == 0
    ensures id in r.states[n].rows ==> Tally(r, n, StatusChanged, id) <= Rank(r.states[n].rows[id].status) <= 2
  {
    if n > 0 {
      AtMostTwoStatusChanges(r, n - 1, id);
      ExclusionHoldsExactly(r, n - 1, id);
      var s, a := r.states[n - 1], r.acts[n - 1];
      assert Exclusive(s, id);
      if id in s.rows {
        RowAfterStep(s, a, id);
      }
    }
  }

  lemma {:induction false} MarkedOnce(r: Run, n: nat, id: ApprovalId)
    requires IsRun(r) && n <= |r.acts| && NoClash(r, n, id)
    ensures Tally(r, n, Marked, id) <= 1
  {
    if n > 0 {
      MarkedOnce(r, n - 1, id);
      ExclusionHoldsExactly(r, n - 1, id);
      ExecutionsAreCounted(r, n - 1, id);
      var s, a := r.states[n - 1], r.acts[n - 1];
      assert Exclusive(s, id);
      assert Happens(s, a, Marked, id) ==> !Used(s, id);
    }
  }

  /**
    * Without a clash on it an approval is marked once if it is EXECUTED and never otherwise; then nothing is in
    * hand any more, and it has authorised one execution more than were lost.
    */
  lemma OneMarkedExecutionPerApproval(r: Run, n: nat, id: ApprovalId)
    requires IsRun(r) && n <= |r.acts| && NoClash(r, n, id)
    ensures Tally(r, n, Marked, id) == if Used(r.states[n], id) then 1 else 0
    ensures Tally(r, n, Executed, id) == Tally(r, n, Marked, id) + Tally(r, n, Lost, id) + |InHand(r.states[n], id)|
    ensures |InHand(r.states[n], id)| <= if Used(r.states[n], id) then 0 else 1
    ensures Tally(r, n, Executed, id) <= 1 + Tally(r, n, Lost, id)
  {
    MarkedOnce(r, n, id);
    ExecutionsAreCounted(r, n, id);
    ExclusionHoldsExactly(r, n, id);
    InHandAtMostOne(r.states[n], id);
  }

  lemma InHandAtMostOne(s: State, id: ApprovalId)
    requires Exclusive(s, id)
    ensures |InHand(s, id)| <= if Used(s, id) then 0 else 1
  {
    if InHand(s, id) != {} {
      var req :| req in InHand(s, id);
      assert InHand(s, id) == {req};
    }
  }

  // ---------------------------------------------------------------- where the promise ends

  function Extend(r: Run, a: Action): Run
    requires |r.states| > 0 && Enabled(r.states[|r.states| - 1], a)
  {
    Run(r.states + [Step(r.states[|r.states| - 1], a)], r.acts + [a])
  }

  lemma ExtendRun(r: Run, a: Action)
    requires IsRun(r) && Enabled(r.states[|r.acts|], a)
    ensures var q := Extend(r, a);
            && IsRun(q) && |q.acts| == |r.acts| + 1 && q.states[|q.acts|] == Step(r.states[|r.acts|], a)
            && forall id :: NoClash(r, |r.acts|, id) && (a.Begin? ==> r.states[|r.acts|].handlers == map[]) ==>
                 NoClash(q, |q.acts|, id)
  {
    hide Step, Enabled;
  }

  const DRAFT := Target("acc", "draft")

  const GRANTED := map["x" := Row("t", "u", DRAFT, SEND_EMAIL, APPROVED, 0, 15 * MINUTE, Some(0), Some("u"))]

  /** An approval for sending a draft, granted, and a first handler that has validated it and sent `target`. */
  lemma GrantedAndSent(target: Target) returns (r: Run, h: Handler)
    ensures IsRun(r) && |r.acts| == 4 && NoClash(r, 4, "x")
    ensures h == Handler("x", "t", "u", target, SEND_EMAIL, 0, Performed)
    ensures r.states[4] == State(0, GRANTED, map["p" := h], [h])
  {
    r := Run([State(0, map[], map[], [])], []);
    ExtendRun(r, Create("x", "t", "u", DRAFT, SEND_EMAIL, None));
    r := Extend(r, Create("x", "t", "u", DRAFT, SEND_EMAIL, None));
    ExtendRun(r, Approve("x", "t", "u"));
    r := Extend(r, Approve("x", "t", "u"));
    assert r.states[2] == State(0, GRANTED, map[], []);
    ExtendRun(r, Begin("p", "x", "t", "u", target, SEND_EMAIL));
    r := Extend(r, Begin("p", "x", "t", "u", target, SEND_EMAIL));
    h := Handler("x", "t", "u", target, SEND_EMAIL, 0, Performed);
    assert r.states[3] == State(0, GRANTED, map["p" := h.(stage := Validated)], []);
    ExtendRun(r, Perform("p", true));
    r := Extend(r, Perform("p", true));
  }

  /** A second handler that validates before the first one marks sends again on the same approval. */
  lemma InterleavedHandlersExecuteTwice() returns (r: Run)
    ensures IsRun(r) && |r.acts| == 6 && |r.states[6].performed| == 2
    ensures r.states[6].performed[0].approval == r.states[6].performed[1].approval == "x"
  {
    hide IsRun, NoClash;
    var h: Handler;
    r, h := GrantedAndSent(DRAFT);
    ExtendRun(r, Begin("q", "x", "t", "u", DRAFT, SEND_EMAIL));
    r := Extend(r, Begin("q", "x", "t", "u", DRAFT, SEND_EMAIL));
    ExtendRun(r, Perform("q", true));
    r := Extend(r, Perform("q", true));
  }

  /** A handler that dies between the provider call and the mark leaves the approval usable again. */
  lemma LostMarkAllowsSecondExecution() returns (r: Run)
    ensures IsRun(r) && |r.acts| == 7 && NoClash(r, 7, "x") && |r.states[7].performed| == 2
    ensures r.states[7].performed[0].approval == r.states[7].performed[1].approval == "x"
  {
    hide IsRun, NoClash;
    var h: Handler;
    r, h := GrantedAndSent(DRAFT);
    ExtendRun(r, Abandon("p"));
    r := Extend(r, Abandon("p"));
    assert r.states[5] == State(0, GRANTED, map[], [h]);
    ExtendRun(r, Begin("q", "x", "t", "u", DRAFT, SEND_EMAIL));
    r := Extend(r, Begin("q", "x", "t", "u", DRAFT, SEND_EMAIL));
    ExtendRun(r, Perform("q", true));
    r := Extend(r, Perform("q", true));
  }

  /** The handlers do not look at the target: a request begins, or is refused, whatever it is about. */
  lemma TargetIsNotCompared(s: State, req: RequestId, id: ApprovalId, tenant: string, user: string, kind: ActionType,
                            target: Target, other: Target)
    requires Enabled(s, Begin(req, id, tenant, user, target, kind))
    ensures var t, u := Step(s, Begin(req, id, tenant, user, target, kind)), Step(s, Begin(req, id, tenant, user, other, kind));
            && u.rows == t.rows
            && u.handlers == (if req in t.handlers then t.handlers[req := t.handlers[req].(target := other)] else t.handlers)
            && (req in t.handlers <==> Validate(s.rows, s.now, id, tenant, user, kind).Valid?)
  {
  }

  /** So an approval requested for one account and draft lets the same user send any other. */
  lemma ActionOnAnotherTarget(target: Target) returns (r: Run)
    ensures IsRun(r) && NoClash(r, |r.acts|, "x") && |r.states| == |r.acts| + 1
    ensures var s := r.states[|r.acts|];
            && |s.performed| == 1 && s.performed[0].target == target
            && s.performed[0].approval in s.rows && s.rows[s.performed[0].approval].target == DRAFT
  {
    var h: Handler;
    r, h := GrantedAndSent(target);
  }
}
