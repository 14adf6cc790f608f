/** Approvals for high-risk actions: the table and the service methods that change it. */
module Approval {
  import opened Wrappers

  type ApprovalId = string

  /** Milliseconds. */
  type Time = int

  const MINUTE: Time := 60 * 1000
  const DEFAULT_EXPIRY_MINUTES := 15

  datatype ActionType =
    | SEND_EMAIL | DELETE_EMAIL | BULK_ARCHIVE | CREATE_EVENT | UPDATE_EVENT | DELETE_EVENT | INVITE_ATTENDEES

  datatype Status = PENDING | APPROVED | REJECTED | EXPIRED | EXECUTED

  /** What a request is about: the mail or calendar account, and the draft or event in it. */
  datatype Target = Target(accountId: string, resourceId: string)

  datatype Row = Row(tenantId: string, userId: string, target: Target, actionType: ActionType, status: Status,
                     requestedAt: Time, expiresAt: Time, decidedAt: Option<Time>, decidedBy: Option<string>)

  type Rows = map<ApprovalId, Row>

  datatype ServiceError = NotFoundOrProcessed | HasExpired | RecordMissing

  datatype Validation =
    | Valid(id: ApprovalId, actionType: ActionType)
    | NotFound
    | NotApproved(status: Status)
    | TooLate
    | WrongAction

  /** No expiry, and an expiry of zero, mean the default. */
  function ExpiresAt(now: Time, expiryMinutes: Option<int>): Time {
    now + (if expiryMinutes.Some? && expiryMinutes.value != 0 then expiryMinutes.value else DEFAULT_EXPIRY_MINUTES) * MINUTE
  }

  function NewRow(now: Time, tenantId: string, userId: string, target: Target, actionType: ActionType,
                  expiryMinutes: Option<int>): Row {
    Row(tenantId, userId, target, actionType, PENDING, now, ExpiresAt(now, expiryMinutes), None, None)
  }

  predicate PendingFor(rows: Rows, id: ApprovalId, tenantId: string) {
    id in rows && rows[id].tenantId == tenantId && rows[id].status == PENDING
  }

  function SetStatus(rows: Rows, id: ApprovalId, status: Status): Rows
    requires id in rows
  {
    rows[id := rows[id].(status := status)]
  }

  function Decide(rows: Rows, id: ApprovalId, status: Status, now: Time, decidedBy: string): Rows
    requires id in rows
  {
    rows[id := rows[id].(status := status, decidedAt := Some(now), decidedBy := Some(decidedBy))]
  }

  function ApproveRows(rows: Rows, now: Time, id: ApprovalId, tenantId: string, decidedBy: string): Rows {
    if !PendingFor(rows, id, tenantId) then rows
    else if now > rows[id].expiresAt then SetStatus(rows, id, EXPIRED)
    else Decide(rows, id, APPROVED, now, decidedBy)
  }

  function RejectRows(rows: Rows, now: Time, id: ApprovalId, tenantId: string, decidedBy: string): Rows {
    if !PendingFor(rows, id, tenantId) then rows else Decide(rows, id, REJECTED, now, decidedBy)
  }

  function Validate(rows: Rows, now: Time, id: ApprovalId, tenantId: string, userId: string, expected: ActionType): Validation {
    if id !in rows || rows[id].tenantId != tenantId || rows[id].userId != userId then NotFound
    else if rows[id].status != APPROVED then NotApproved(rows[id].status)
    else if now > rows[id].expiresAt then TooLate
    else if rows[id].actionType != expected then WrongAction
    else Valid(id, rows[id].actionType)
  }

  /** Validating too late marks the approval as expired. */
  function ValidateRows(rows: Rows, now: Time, id: ApprovalId, tenantId: string, userId: string, expected: ActionType): Rows {
    if Validate(rows, now, id, tenantId, userId, expected) == TooLate then SetStatus(rows, id, EXPIRED) else rows
  }

  predicate Stale(row: Row, now: Time) {
    row.status == PENDING && row.expiresAt < now
  }

  function ExpireRows(rows: Rows, now: Time): Rows {
    map id | id in rows :: if Stale(rows[id], now) then rows[id].(status := EXPIRED) else rows[id]
  }

  class ApprovalService {
    var rows: Rows

    constructor ()
      ensures rows == map[]
    {
      rows := map[];
    }

    method CreateApproval(now: Time, freshId: ApprovalId, tenantId: string, userId: string, target: Target,
                          actionType: ActionType, expiryMinutes: Option<int>) returns (expiresAt: Time)
      requires freshId !in rows
      modifies this
      ensures rows == old(rows)[freshId := NewRow(now, tenantId, userId, target, actionType, expiryMinutes)]
      ensures expiresAt == rows[freshId].expiresAt
      ensures expiryMinutes.None? || expiryMinutes == Some(0) ==> expiresAt == now + 900_000
      ensures expiryMinutes.Some? && expiryMinutes.value != 0 ==> expiresAt == now + expiryMinutes.value * 60_000
      ensures rows[freshId] == Row(tenantId, userId, target, actionType, PENDING, now, expiresAt, None, None)
    {
      rows := rows[freshId := NewRow(now, tenantId, userId, target, actionType, expiryMinutes)];
      return rows[freshId].expiresAt;
    }

    method Approve(now: Time, id: ApprovalId, tenantId: string, decidedBy: string) returns (r: Result<Row, ServiceError>)
      modifies this
      ensures rows == ApproveRows(old(rows), now, id, tenantId, decidedBy)
      ensures r.Ok? <==> PendingFor(old(rows), id, tenantId) && now <= old(rows)[id].expiresAt
      ensures r.Ok? ==> r.value == rows[id] && r.value.status == APPROVED
      ensures r == Err(HasExpired) <==> PendingFor(old(rows), id, tenantId) && now > old(rows)[id].expiresAt
      ensures var found := id in old(rows) && old(rows)[id].tenantId == tenantId && old(rows)[id].status == PENDING;
              if !found then r == Err(NotFoundOrProcessed) && rows == old(rows)
              else if now > old(rows)[id].expiresAt then r == Err(HasExpired) && rows == old(rows)[id := old(rows)[id].(status := EXPIRED)]
              else r.Ok? && rows == old(rows)[id := old(rows)[id].(
                                      status := APPROVED, decidedAt := Some(now), decidedBy := Some(decidedBy))]
    {
      if !PendingFor(rows, id, tenantId) {
        return Err(NotFoundOrProcessed);
      }
      if now > rows[id].expiresAt {
        rows := rows[id := rows[id].(status := EXPIRED)];
        return Err(HasExpired);
      }
      rows := rows[id := rows[id].(status := APPROVED, decidedAt := Some(now), decidedBy := Some(decidedBy))];
      return Ok(rows[id]);
    }

    method Reject(now: Time, id: ApprovalId, tenantId: string, decidedBy: string) returns (r: Result<Row, ServiceError>)
      modifies this
      ensures rows == RejectRows(old(rows), now, id, tenantId, decidedBy)
      ensures r.Ok? <==> PendingFor(old(rows), id, tenantId)
      ensures r.Ok? ==> r.value == rows[id] && r.value.status == REJECTED
      ensures var found := id in old(rows) && old(rows)[id].tenantId == tenantId && old(rows)[id].status == PENDING;
              if !found then r == Err(NotFoundOrProcessed) && rows == old(rows)
              else r.Ok? && rows == old(rows)[id := old(rows)[id].(
                                      status := REJECTED, decidedAt := Some(now), decidedBy := Some(decidedBy))]
    {
      if !PendingFor(rows, id, tenantId) {
        return Err(NotFoundOrProcessed);
      }
      rows := rows[id := rows[id].(status := REJECTED, decidedAt := Some(now), decidedBy := Some(decidedBy))];
      return Ok(rows[id]);
    }

    method ValidateApproval(now: Time, id: ApprovalId, tenantId: string, userId: string, expected: ActionType)
      returns (v: Validation)
      modifies this
      ensures v == Validate(old(rows), now, id, tenantId, userId, expected)
      ensures rows == ValidateRows(old(rows), now, id, tenantId, userId, expected)
      ensures v.Valid? ==> v == Valid(id, expected)
      ensures v.Valid? <==>
              && id in old(rows) && old(rows)[id].tenantId == tenantId && old(rows)[id].userId == userId
              && old(rows)[id].status == APPROVED && now <= old(rows)[id].expiresAt && old(rows)[id].actionType == expected
      ensures v == TooLate <==>
              && id in old(rows) && old(rows)[id].tenantId == tenantId && old(rows)[id].userId == userId
              && old(rows)[id].status == APPROVED && now > old(rows)[id].expiresAt
      ensures v == NotFound <==> !(id in old(rows) && old(rows)[id].tenantId == tenantId && old(rows)[id].userId == userId)
      ensures v.NotApproved? ==> v.status == old(rows)[id].status != APPROVED
      ensures v == WrongAction ==> old(rows)[id].actionType != expected
      ensures rows == if v == TooLate then old(rows)[id := old(rows)[id].(status := EXPIRED)] else old(rows)
    {
      if id !in rows || rows[id].tenantId != tenantId || rows[id].userId != userId {
        return NotFound;
      }
      var row := rows[id];
      if row.status != APPROVED {
        return NotApproved(row.status);
      }
      if now > row.expiresAt {
        rows := rows[id := row.(status := EXPIRED)];
        return TooLate;
      }
      if row.actionType != expected {
        return WrongAction;
      }
      return Valid(id, row.actionType);
    }

    /** Updating by id raises when there is no such row, and looks at nothing else. */
    method MarkExecuted(id: ApprovalId) returns (r: Result<(), ServiceError>)
      modifies this
      ensures r.Ok? <==> id in old(rows)
      ensures rows == if id in old(rows) then old(rows)[id := old(rows)[id].(status := EXECUTED)] else old(rows)
    {
      if id !in rows {
        return Err(RecordMissing);
      }
      rows := rows[id := rows[id].(status := EXECUTED)];
      return Ok(());
    }

    /** Exactly the user's approvals that can still be decided in favour. */
    method ListPending(now: Time, tenantId: string, userId: string) returns (ids: set<ApprovalId>)
      ensures forall id :: id in ids <==>
                && id in rows && rows[id].tenantId == tenantId && rows[id].userId == userId
                && rows[id].status == PENDING && rows[id].expiresAt > now
    {
      ids := set id | id in rows && rows[id].tenantId == tenantId && rows[id].userId == userId
                      && rows[id].status == PENDING && rows[id].expiresAt > now;
    }

    method ExpireStale(now: Time) returns (count: nat)
      modifies this
      ensures rows == ExpireRows(old(rows), now)
      ensures rows.Keys == old(rows).Keys
      ensures forall id :: id in rows ==>
                rows[id] == if old(rows)[id].status == PENDING && old(rows)[id].expiresAt < now
                            then old(rows)[id].(status := EXPIRED) else old(rows)[id]
      ensures count == |set id | id in old(rows) && old(rows)[id].status == PENDING && old(rows)[id].expiresAt < now|
    {
      var stale := set id | id in rows && rows[id].status == PENDING && rows[id].expiresAt < now;
      assert forall id :: id in rows ==> (id in stale <==> Stale(rows[id], now));
      rows := map id | id in rows :: if id in stale then rows[id].(status := EXPIRED) else rows[id];
      return |stale|;
    }
  }

  datatype Response =
    | RequiresApproval(approvalId: ApprovalId, expiresAt: Time)      // 202
    | Forbidden(reason: Validation)                                  // 403
    | Completed
    | ProviderFailed

  /**
    * The send-draft and delete-event handlers, run without interruption: `succeeds` is the provider's answer.
    * A request without an approval id asks for one; with one, the action happens exactly when it is valid.
    */
  method HandleGatedAction(service: ApprovalService, now: Time, tenantId: string, userId: string, target: Target,
                           actionType: ActionType, approvalId: Option<ApprovalId>, freshId: ApprovalId, succeeds: bool)
    returns (response: Response)
    requires freshId !in service.rows && (actionType == SEND_EMAIL || actionType == DELETE_EVENT)
    modifies service
    ensures var given, rows := approvalId.Some? && approvalId.value != "", old(service.rows);
            var mine := given && approvalId.value in rows && rows[approvalId.value].tenantId == tenantId
                        && rows[approvalId.value].userId == userId && rows[approvalId.value].status == APPROVED;
            var late := mine && now > rows[approvalId.value].expiresAt;
            var valid := mine && !late && rows[approvalId.value].actionType == actionType;
            && (response.Completed? <==> valid && succeeds)
            && (response.ProviderFailed? <==> valid && !succeeds)
            && (response.Forbidden? <==> given && !valid)
            && (response.RequiresApproval? <==> !given)
            && (response.RequiresApproval? ==> response == RequiresApproval(freshId, now + 900_000))
            && service.rows == (if !given then rows[freshId := Row(tenantId, userId, target, actionType, PENDING,
                                                                     now, now + 900_000, None, None)]
                                else if valid && succeeds then rows[approvalId.value := rows[approvalId.value].(status := EXECUTED)]
                                else if late then rows[approvalId.value := rows[approvalId.value].(status := EXPIRED)]
                                else rows)
  {
    if approvalId.None? || approvalId.value == "" {
      var expiresAt := service.CreateApproval(now, freshId, tenantId, userId, target, actionType, None);
      return RequiresApproval(freshId, expiresAt);
    }
    var validation := service.ValidateApproval(now, approvalId.value, tenantId, userId, actionType);
    if !validation.Valid? {
      return Forbidden(validation);
    }
    if !succeeds {
      return ProviderFailed;
    }
    var marked := service.MarkExecuted(approvalId.value);
    return Completed;
  }
}
