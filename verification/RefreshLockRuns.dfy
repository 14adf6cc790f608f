/** Interleaved refresh calls for one account: every Redis command, read, provider call and store is one step. */
module RefreshLockRuns {
  import opened Wrappers
  import opened Encryption
  import opened TokenStore
  import opened RefreshLock

  type CallId = string

  /** `seen` is how many writes of the token row had happened when the call read it. */
  datatype Stage =
    | Waiting
    | Reading
    | Refreshing(consumed: Token, seen: nat)
    | Storing(consumed: Token, seen: nat, next: TokenData)
    | Releasing                                                // about to GET the lock
    | Deleting                                                 // the GET returned its own value
    | Finished

  datatype Call = Call(value: string, since: Time, stage: Stage)

  /** Who wrote the token row: another part of the service, or a refresh that spent `consumed`. */
  datatype Write =
    | External(tokens: Option<TokenData>)
    | Refresh(tokens: Option<TokenData>, consumed: Token, seen: nat)

  datatype State = State(now: Time, lock: Option<Lock>, calls: map<CallId, Call>, writes: seq<Write>)

  /** The token row is what the last write left. */
  function Row(s: State): Option<TokenData> {
    if s.writes == [] then None else s.writes[|s.writes| - 1].tokens
  }

  datatype Action =
    | Begin(id: CallId, value: string)
    | WaitOver(id: CallId)
    | Read(id: CallId, succeeds: bool)                          // a failed read goes straight to the release
    | Answer(id: CallId, next: Option<TokenData>)              // None: the provider refused
    | Store(id: CallId, succeeds: bool)
    | Get(id: CallId)
    | Del(id: CallId)
    | Crash(id: CallId)
    | Overwrite(tokens: Option<TokenData>)                     // an OAuth callback or a revocation
    | Tick(dt: nat)

  predicate At(s: State, id: CallId, stage: Stage) {
    id in s.calls && s.calls[id].stage == stage
  }

  ghost predicate Enabled(s: State, a: Action) {
    match a
    case Begin(id, value) => id !in s.calls && forall k :: k in s.calls ==> s.calls[k].value != value
    case WaitOver(id) => At(s, id, Waiting)
    case Read(id, _) => At(s, id, Reading)
    case Answer(id, _) => id in s.calls && s.calls[id].stage.Refreshing?
    case Store(id, _) => id in s.calls && s.calls[id].stage.Storing?
    case Get(id) => At(s, id, Releasing)
    case Del(id) => At(s, id, Deleting)
    case Crash(id) => id in s.calls
    case _ => true
  }

  function MoveTo(s: State, id: CallId, stage: Stage): State
    requires id in s.calls
  {
    s.(calls := s.calls[id := s.calls[id].(stage := stage)])
  }

  function Step(s: State, a: Action): State
    requires Enabled(s, a)
  {
    match a
    case Begin(id, value) =>
      if Live(s.lock, s.now) then s.(calls := s.calls[id := Call(value, s.now, Waiting)])
      else s.(calls := s.calls[id := Call(value, s.now, Reading)], lock := Some(Lock(value, s.now)))
    case WaitOver(id) => MoveTo(s, id, Finished)
    case Read(id, succeeds) =>
      var row := Row(s);
      if succeeds && row.Some? && NeedsRefresh(row.value, s.now)
      then MoveTo(s, id, Refreshing(row.value.refreshToken, |s.writes|)) else MoveTo(s, id, Releasing)
    case Answer(id, next) =>
      var stage := s.calls[id].stage;
      if next.Some? then MoveTo(s, id, Storing(stage.consumed, stage.seen, next.value)) else MoveTo(s, id, Releasing)
    case Store(id, succeeds) =>
      var stage := s.calls[id].stage;
      var t := MoveTo(s, id, Releasing);
      if succeeds then t.(writes := s.writes + [Refresh(Some(stage.next), stage.consumed, stage.seen)]) else t
    case Get(id) =>
      if Live(s.lock, s.now) && s.lock.value.value == s.calls[id].value
      then MoveTo(s, id, Deleting) else MoveTo(s, id, Finished)
    case Del(id) => MoveTo(s, id, Finished).(lock := None)
    case Crash(id) => MoveTo(s, id, Finished)
    case Overwrite(tokens) => s.(writes := s.writes + [External(tokens)])
    case Tick(dt) => s.(now := s.now + dt)
  }

  /** A call that reads refreshes exactly if the row holds tokens with at most five minutes left, and spends theirs. */
  lemma ReadRefreshesExactly(s: State, id: CallId)
    requires Enabled(s, Read(id, true))
    ensures var stage, row := Step(s, Read(id, true)).calls[id].stage, Row(s);
            && (stage.Refreshing? <==> row.Some? && row.value.expiresAt - s.now <= 300_000)
            && (stage.Refreshing? ==> stage.consumed == row.value.refreshToken)
            && (stage.Refreshing? || stage.Releasing?)
  {
  }

  /** A SET takes the lock exactly if there is none, or it is older than thirty seconds. */
  lemma BeginLocksExactly(s: State, id: CallId, value: string)
    requires Enabled(s, Begin(id, value))
    ensures var t := Step(s, Begin(id, value));
            && (t.calls[id].stage.Reading? <==> s.lock.None? || s.now - s.lock.value.setAt > 30_000)
            && t.lock == if t.calls[id].stage.Reading? then Some(Lock(value, s.now)) else s.lock
  {
  }

  /** Calls between their successful SET and their DEL. */
  predicate Holder(c: Call) {
    !c.stage.Waiting? && !c.stage.Finished?
  }

  datatype Run = Run(states: seq<State>, acts: seq<Action>)

  ghost predicate Initial(s: State) {
    s.lock == None && s.calls == map[] && s.writes == []
  }

  ghost predicate IsRun(r: Run) {
    && |r.states| == |r.acts| + 1
    && Initial(r.states[0])
    && forall i :: 0 <= i < |r.acts| ==>
         Enabled(r.states[i], r.acts[i]) && r.states[i + 1] == Step(r.states[i], r.acts[i])
  }

  /** Every holder is done within the lock's thirty seconds. */
  ghost predicate WithinTtl(s: State) {
    forall id :: id in s.calls && Holder(s.calls[id]) ==> s.now <= s.calls[id].since + LOCK_TTL
  }

  ghost predicate TtlKept(r: Run) {
    forall i :: 0 <= i < |r.states| ==> WithinTtl(r.states[i])
  }

  // ---------------------------------------------------------------- mutual exclusion

  ghost predicate ValuesDistinct(s: State) {
    forall i, k :: i in s.calls && k in s.calls && s.calls[i].value == s.calls[k].value ==> i == k
  }

  /** The lock belongs to every holder; lock values being distinct, there is at most one. */
  ghost predicate HoldersOwnLock(s: State) {
    forall id :: id in s.calls && Holder(s.calls[id]) ==> s.lock == Some(Lock(s.calls[id].value, s.calls[id].since))
  }

  /** A holder was a holder before, with the same lock value, unless it is the call that just began. */
  lemma HoldersPersist(s: State, a: Action, id: CallId)
    requires Enabled(s, a) && id in Step(s, a).calls && !(a.Begin? && a.id == id)
    ensures id in s.calls
    ensures Step(s, a).calls[id].value == s.calls[id].value && Step(s, a).calls[id].since == s.calls[id].since
    ensures Holder(Step(s, a).calls[id]) ==> Holder(s.calls[id])
    ensures a.Del? && a.id == id ==> !Holder(Step(s, a).calls[id])
  {
  }

  lemma StepKeepsDistinct(s: State, a: Action)
    requires Enabled(s, a) && ValuesDistinct(s)
    ensures ValuesDistinct(Step(s, a))
  {
    var t := Step(s, a);
    forall i, k | i in t.calls && k in t.calls && t.calls[i].value == t.calls[k].value ensures i == k {
      if !(a.Begin? && a.id == i) {
        HoldersPersist(s, a, i);
      }
      if !(a.Begin? && a.id == k) {
        HoldersPersist(s, a, k);
      }
    }
  }

  lemma {:induction false} RunKeepsDistinct(r: Run, n: nat)
    requires IsRun(r) && n <= |r.acts|
    ensures ValuesDistinct(r.states[n])
  {
    hide Step, Enabled;
    if n > 0 {
      RunKeepsDistinct(r, n - 1);
      StepKeepsDistinct(r.states[n - 1], r.acts[n - 1]);
    }
  }

  /** A call takes the lock, absent or run out, while another is still in the critical section. */
  ghost predicate Intrudes(s: State, a: Action) {
    a.Begin? && !Live(s.lock, s.now) && exists id :: id in s.calls && Holder(s.calls[id])
  }

  /** The lock stays with its holder through every step but an intrusion, which always takes it away. */
  lemma ExclusionLostExactly(s: State, a: Action)
    requires Enabled(s, a) && ValuesDistinct(s) && HoldersOwnLock(s)
    ensures HoldersOwnLock(Step(s, a)) <==> !Intrudes(s, a)
  {
    var t := Step(s, a);
    if Intrudes(s, a) {
      var id :| id in s.calls && Holder(s.calls[id]);
      assert t.calls[id] == s.calls[id] && t.calls[a.id].value == a.value;
      assert t.lock != Some(Lock(t.calls[id].value, t.calls[id].since));
    } else {
      forall id | id in t.calls && Holder(t.calls[id])
        ensures t.lock == Some(Lock(t.calls[id].value, t.calls[id].since))
      {
        if !(a.Begin? && a.id == id) {
          HoldersPersist(s, a, id);
          assert s.lock == Some(Lock(s.calls[id].value, s.calls[id].since));
        }
      }
    }
  }

  ghost predicate AlwaysExclusive(r: Run, n: nat)
    requires IsRun(r) && n <= |r.acts|
  {
    forall i :: 0 <= i <= n ==> HoldersOwnLock(r.states[i])
  }

  ghost predicate NeverIntruded(r: Run, n: nat)
    requires IsRun(r) && n <= |r.acts|
  {
    forall i :: 0 <= i < n ==> !Intrudes(r.states[i], r.acts[i])
  }

  /** In every run, every holder always owns the lock exactly if no call ever takes it from under a holder. */
  lemma {:induction false} ExclusionHoldsExactly(r: Run, n: nat)
    requires IsRun(r) && n <= |r.acts|
    ensures AlwaysExclusive(r, n) <==> NeverIntruded(r, n)
  {
    hide Step, Enabled, ValuesDistinct, Intrudes;
    if n > 0 {
      ExclusionHoldsExactly(r, n - 1);
      RunKeepsDistinct(r, n - 1);
      assert AlwaysExclusive(r, n) <==> AlwaysExclusive(r, n - 1) && HoldersOwnLock(r.states[n]);
      assert NeverIntruded(r, n) <==> NeverIntruded(r, n - 1) && !Intrudes(r.states[n - 1], r.acts[n - 1]);
      if AlwaysExclusive(r, n - 1) {
        ExclusionLostExactly(r.states[n - 1], r.acts[n - 1]);
      }
    }
  }

  /** A holder within its thirty seconds has a live lock, so nobody intrudes. */
  lemma {:induction false} RunKeepsExclusion(r: Run, n: nat)
    requires IsRun(r) && TtlKept(r) && n <= |r.acts|
    ensures ValuesDistinct(r.states[n]) && HoldersOwnLock(r.states[n])
  {
    hide Step, Enabled;
    RunKeepsDistinct(r, n);
    if n > 0 {
      RunKeepsExclusion(r, n - 1);
      assert WithinTtl(r.states[n - 1]);
      assert !Intrudes(r.states[n - 1], r.acts[n - 1]);
      ExclusionLostExactly(r.states[n - 1], r.acts[n - 1]);
    }
  }

  /** At most one call is in the critical section, and the key in Redis is its own. */
  lemma AtMostOneHolder(r: Run, n: nat, i: CallId, k: CallId)
    requires IsRun(r) && TtlKept(r) && n <= |r.acts|
    requires i in r.states[n].calls && k in r.states[n].calls
    requires Holder(r.states[n].calls[i]) && Holder(r.states[n].calls[k])
    ensures i == k
    ensures Live(r.states[n].lock, r.states[n].now) && r.states[n].lock.value.value == r.states[n].calls[i].value
  {
    RunKeepsExclusion(r, n);
    assert WithinTtl(r.states[n]);
  }

  /** The unconditional DEL removes nobody else's lock, and every other step leaves a held lock in place. */
  lemma LockIsRemovedOnlyByItsHolder(r: Run, n: nat)
    requires IsRun(r) && TtlKept(r) && n < |r.acts|
    ensures r.acts[n].Del? ==> r.states[n].lock == Some(Lock(r.states[n].calls[r.acts[n].id].value, r.states[n].calls[r.acts[n].id].since))
    ensures Live(r.states[n].lock, r.states[n].now) && !r.acts[n].Del? ==> r.states[n + 1].lock == r.states[n].lock
  {
    RunKeepsExclusion(r, n);
    assert Enabled(r.states[n], r.acts[n]) && r.states[n + 1] == Step(r.states[n], r.acts[n]);
  }

  // ---------------------------------------------------------------- what a refresh spends

  /** `consumed` is the refresh token left by write `seen`, and no refresh has written since. */
  ghost predicate SpendsLatest(writes: seq<Write>, n: nat, consumed: Token, seen: nat)
    requires n <= |writes|
  {
    && 1 <= seen <= n
    && writes[seen - 1].tokens.Some?
    && writes[seen - 1].tokens.value.refreshToken == consumed
    && forall k :: seen <= k < n ==> writes[k].External?
  }

  ghost predicate SpendingSound(s: State) {
    && (forall i :: 0 <= i < |s.writes| && s.writes[i].Refresh? ==>
          SpendsLatest(s.writes, i, s.writes[i].consumed, s.writes[i].seen))
    && (forall id :: id in s.calls && s.calls[id].stage.Refreshing? ==>
          SpendsLatest(s.writes, |s.writes|, s.calls[id].stage.consumed, s.calls[id].stage.seen))
    && (forall id :: id in s.calls && s.calls[id].stage.Storing? ==>
          SpendsLatest(s.writes, |s.writes|, s.calls[id].stage.consumed, s.calls[id].stage.seen))
  }

  lemma AppendKeepsSpending(writes: seq<Write>, w: Write)
    requires forall i :: 0 <= i < |writes| && writes[i].Refresh? ==>
               SpendsLatest(writes, i, writes[i].consumed, writes[i].seen)
    requires w.Refresh? ==> SpendsLatest(writes, |writes|, w.consumed, w.seen)
    ensures var more := writes + [w];
            && (forall i :: 0 <= i < |more| && more[i].Refresh? ==>
                  SpendsLatest(more, i, more[i].consumed, more[i].seen))
            && (w.External? ==> forall c, k {:trigger SpendsLatest(more, |more|, c, k)} ::
                  SpendsLatest(writes, |writes|, c, k) ==> SpendsLatest(more, |more|, c, k))
  {
    var more := writes + [w];
    forall i | 0 <= i < |more| && more[i].Refresh?
      ensures SpendsLatest(more, i, more[i].consumed, more[i].seen)
    {
      if i < |writes| {
        assert SpendsLatest(writes, i, writes[i].consumed, writes[i].seen);
      }
    }
  }

  /** A call that holds a refresh token it has read, spent at the provider or not. */
  predicate Spending(c: Call) {
    c.stage.Refreshing? || c.stage.Storing?
  }

  /** A refresh is stored while another call holds a token it has read before. */
  ghost predicate StoresBesideOther(s: State, a: Action) {
    a.Store? && a.succeeds && exists id :: id in s.calls && id != a.id && Spending(s.calls[id])
  }

  lemma StoringBesideOtherSpoils(s: State, a: Action)
    requires Enabled(s, a) && SpendingSound(s) && StoresBesideOther(s, a)
    ensures !SpendingSound(Step(s, a))
  {
    var id :| id in s.calls && id != a.id && Spending(s.calls[id]);
    var t, stage := Step(s, a), s.calls[id].stage;
    assert t.calls[id] == s.calls[id] && t.writes[|s.writes|].Refresh?;
    assert SpendsLatest(s.writes, |s.writes|, stage.consumed, stage.seen);
    assert !SpendsLatest(t.writes, |t.writes|, stage.consumed, stage.seen);
  }

  lemma OtherStepsKeepSpending(s: State, a: Action)
    requires Enabled(s, a) && SpendingSound(s) && !StoresBesideOther(s, a)
    ensures SpendingSound(Step(s, a))
  {
    hide Live, NeedsRefresh;
    if a.Store? && a.succeeds {
      var stage := s.calls[a.id].stage;
      AppendKeepsSpending(s.writes, Refresh(Some(stage.next), stage.consumed, stage.seen));
      assert forall id :: id in Step(s, a).calls ==> !Spending(Step(s, a).calls[id]);
    } else if a.Overwrite? {
      AppendKeepsSpending(s.writes, External(a.tokens));
    }
  }

  /** Every token in hand stays the latest one through every step but such a store. */
  lemma SpendingLostExactly(s: State, a: Action)
    requires Enabled(s, a) && SpendingSound(s)
    ensures SpendingSound(Step(s, a)) <==> !StoresBesideOther(s, a)
  {
    if StoresBesideOther(s, a) {
      StoringBesideOtherSpoils(s, a);
    } else {
      OtherStepsKeepSpending(s, a);
    }
  }

  lemma NothingSpent(s: State)
    requires Initial(s)
    ensures SpendingSound(s)
  {
  }

  lemma {:induction false} RunKeepsSpending(r: Run, n: nat)
    requires IsRun(r) && TtlKept(r) && n <= |r.acts|
    ensures SpendingSound(r.states[n])
  {
    hide Step, SpendingSound;
    if n > 0 {
      RunKeepsSpending(r, n - 1);
      RunKeepsExclusion(r, n - 1);
      var s, a := r.states[n - 1], r.acts[n - 1];
      assert a.Store? ==> Holder(s.calls[a.id]);
      SpendingLostExactly(s, a);
    } else {
      NothingSpent(r.states[0]);
    }
  }

  lemma NoOtherWriterMeansPrevious(writes: seq<Write>, i: nat, consumed: Token, seen: nat)
    requires i < |writes| && SpendsLatest(writes, i, consumed, seen)
    ensures i > 0
    ensures (forall k :: 0 < k <= i ==> writes[k].Refresh?) ==>
              writes[i - 1].tokens.Some? && writes[i - 1].tokens.value.refreshToken == consumed
  {
    assert seen == i || writes[i - 1].External?;
  }

  /**
    * Each successful refresh spends exactly the refresh token some earlier write stored, and no other refresh
    * wrote between that write and its own: with no other writer at all, the token the previous write stored.
    */
  lemma RefreshSpendsLatestToken(r: Run, n: nat, i: nat)
    requires IsRun(r) && TtlKept(r) && n <= |r.acts|
    requires i < |r.states[n].writes| && r.states[n].writes[i].Refresh?
    ensures SpendsLatest(r.states[n].writes, i, r.states[n].writes[i].consumed, r.states[n].writes[i].seen)
    ensures i > 0
    ensures (forall k :: 0 < k <= i ==> r.states[n].writes[k].Refresh?) ==>
              && r.states[n].writes[i - 1].tokens.Some?
              && r.states[n].writes[i].consumed == r.states[n].writes[i - 1].tokens.value.refreshToken
  {
    RunKeepsSpending(r, n);
    hide IsRun, TtlKept, SpendsLatest;
    var writes := r.states[n].writes;
    NoOtherWriterMeansPrevious(writes, i, writes[i].consumed, writes[i].seen);
  }

  /** No stored refresh token is spent twice: two refreshes never read the same write. */
  lemma NoTokenSpentTwice(r: Run, n: nat, i: nat, k: nat)
    requires IsRun(r) && TtlKept(r) && n <= |r.acts|
    requires i < k < |r.states[n].writes| && r.states[n].writes[i].Refresh? && r.states[n].writes[k].Refresh?
    ensures r.states[n].writes[i].seen <= i < r.states[n].writes[k].seen
  {
    RunKeepsSpending(r, n);
    var writes := r.states[n].writes;
    assert SpendsLatest(writes, k, writes[k].consumed, writes[k].seen);
    assert SpendsLatest(writes, i, writes[i].consumed, writes[i].seen);
  }

  /** Refreshes do complete: a call that reads, is answered, stores and releases leaves the new tokens and no lock. */
  lemma RefreshCompletes(tokens: TokenData) returns (r: Run)
    ensures IsRun(r) && TtlKept(r) && |r.acts| == 7 && |r.states| == 8
    ensures r.states[7].writes == [External(Some(STORED)), Refresh(Some(tokens), [7], 1)]
    ensures r.states[7].lock == None && r.states[7].calls == map["A" := Call("a", 0, Finished)]
  {
    hide IsRun, Extend, TtlKept, NeedsRefresh;
    r := FirstCallRefreshes();
    var lock, call, writes := Some(Lock("a", 0)), Call("a", 0, Finished), [External(Some(STORED))];
    var more := writes + [Refresh(Some(tokens), [7], 1)];
    var q0 := r;
    var q1 := Extend(q0, Answer("A", Some(tokens)));
    assert q1.states[4] == State(0, lock, map["A" := call.(stage := Storing([7], 1, tokens))], writes);
    var q2 := Extend(q1, Action.Store("A", true));
    assert q2.states[5] == State(0, lock, map["A" := call.(stage := Releasing)], more);
    var q3 := Extend(q2, Get("A"));
    assert q3.states[6] == State(0, lock, map["A" := call.(stage := Deleting)], more);
    r := Extend(q3, Del("A"));
    assert r.states[7] == State(0, None, map["A" := call], more);
    TimeStandsStill(r);
  }

  /** While no time passes nobody overstays. */
  lemma {:induction false} NoTimePasses(r: Run, n: nat)
    requires IsRun(r) && n <= |r.acts| && forall i :: 0 <= i < |r.acts| ==> !r.acts[i].Tick?
    ensures r.states[n].now == r.states[0].now
    ensures forall id :: id in r.states[n].calls ==> r.states[n].calls[id].since == r.states[0].now
  {
    if n > 0 {
      NoTimePasses(r, n - 1);
    }
  }

  lemma TimeStandsStill(r: Run)
    requires IsRun(r) && forall i :: 0 <= i < |r.acts| ==> !r.acts[i].Tick?
    ensures TtlKept(r)
  {
    hide Step, Enabled;
    forall i | 0 <= i < |r.states| ensures WithinTtl(r.states[i]) {
      NoTimePasses(r, i);
    }
  }

  // ---------------------------------------------------------------- where the promise ends

  function Extend(r: Run, a: Action): (q: Run)
    requires IsRun(r) && Enabled(r.states[|r.acts|], a)
    ensures IsRun(q) && |q.acts| == |r.acts| + 1 && |q.states| == |q.acts| + 1
    ensures q.states[|r.acts|] == r.states[|r.acts|] && q.acts == r.acts + [a]
    ensures q.states[|q.acts|] == Step(r.states[|r.acts|], a)
  {
    Run(r.states + [Step(r.states[|r.acts|], a)], r.acts + [a])
  }

  const STORED := TokenData([], [7], 0)

  /** A first call has read the stored tokens and asked the provider for new ones. */
  lemma FirstCallRefreshes() returns (r: Run)
    ensures IsRun(r) && |r.acts| == 3 && |r.states| == 4 && forall i :: 0 <= i < 3 ==> !r.acts[i].Tick?
    ensures r.states[3] == State(0, Some(Lock("a", 0)), map["A" := Call("a", 0, Refreshing([7], 1))], [External(Some(STORED))])
  {
    r := Run([State(0, None, map[], [])], []);
    assert IsRun(r);
    hide IsRun, Extend;
    r := Extend(r, Overwrite(Some(STORED)));
    assert r.states[1] == State(0, None, map[], [External(Some(STORED))]);
    r := Extend(r, Begin("A", "a"));
    assert r.states[2] == State(0, Some(Lock("a", 0)), map["A" := Call("a", 0, Reading)], [External(Some(STORED))]);
    r := Extend(r, Read("A", true));
  }

  /** A holder that oversleeps lets a second call spend the same refresh token. */
  lemma OverstayingSpendsTokenTwice() returns (r: Run)
    ensures IsRun(r) && |r.acts| == 6
    ensures "A" in r.states[6].calls && "B" in r.states[6].calls
    ensures r.states[6].calls["A"].stage.Refreshing? && r.states[6].calls["A"].stage == r.states[6].calls["B"].stage
  {
    hide IsRun, Extend;
    r := FirstCallRefreshes();
    var a, late := r.states[3].calls["A"], LOCK_TTL + 1;
    r := Extend(r, Tick(late));
    r := Extend(r, Begin("B", "b"));
    assert r.states[5] == State(late, Some(Lock("b", late)), map["A" := a, "B" := Call("b", late, Reading)],
                                [External(Some(STORED))]);
    r := Extend(r, Read("B", true));
  }

  /**
    * GET and DEL are two commands: a call that sleeps between them deletes another call's lock, and then two
    * calls are in the critical section, each well within its own thirty seconds.
    */
  lemma SlowDeleteAdmitsTwoHolders() returns (r: Run)
    ensures IsRun(r) && |r.acts| == 7
    ensures r.acts[5] == Del("A") && r.states[5].lock.Some? && r.states[5].lock.value.value == "b"
    ensures "B" in r.states[7].calls && "C" in r.states[7].calls
    ensures Holder(r.states[7].calls["B"]) && Holder(r.states[7].calls["C"]) && WithinTtl(r.states[7])
  {
    var late := LOCK_TTL + 1;
    r := Run([State(0, None, map[], [])], []);
    assert IsRun(r);
    hide IsRun, Extend;
    r := Extend(r, Begin("A", "a"));
    r := Extend(r, Read("A", true));
    r := Extend(r, Get("A"));
    assert r.states[3] == State(0, Some(Lock("a", 0)), map["A" := Call("a", 0, Deleting)], []);
    r := Extend(r, Tick(late));
    r := Extend(r, Begin("B", "b"));
    assert r.states[5] == State(late, Some(Lock("b", late)),
                                map["A" := Call("a", 0, Deleting), "B" := Call("b", late, Reading)], []);
    var q := Extend(r, Del("A"));
    r := Extend(q, Begin("C", "c"));
    assert r.states[5] == q.states[5] && r.acts[5] == q.acts[5];
  }
}
