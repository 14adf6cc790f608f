/** The in-memory sliding-window rate limiter. */
module RateLimiter {

  const WINDOW := 60.0

  /** Crashed: the program indexes an empty deque, which only a limit below one can make it do. */
  datatype Outcome = Admitted | Rejected(retryAfter: int) | Crashed

  datatype Request = Request(visitor: string, at: real)

  /** Conversion to int cuts the fraction off. */
  function Truncate(x: real): int {
    if x >= 0.0 then x.Floor else -((-x).Floor)
  }

  function Prune(history: seq<real>, cutoff: real): seq<real> {
    if history != [] && history[0] < cutoff then Prune(history[1..], cutoff) else history
  }

  /** The history a request leaves, and how it is answered. */
  function Respond(limit: int, history: seq<real>, now: real): (seq<real>, Outcome) {
    var kept := Prune(history, now - WINDOW);
    if |kept| < limit then (kept + [now], Admitted)
    else (kept, if kept == [] then Crashed else Rejected(Truncate(WINDOW - (now - kept[0]))))
  }

  // ---------------------------------------------------------------- whole runs

  /** The deque of visitor `v` after the requests `rs`. */
  function History(limit: int, rs: seq<Request>, v: string): seq<real> {
    if rs == [] then []
    else
      var last := rs[|rs| - 1];
      var before := History(limit, rs[..|rs| - 1], v);
      if last.visitor == v then Respond(limit, before, last.at).0 else before
  }

  function OutcomeOf(limit: int, rs: seq<Request>, i: nat): Outcome
    requires i < |rs|
  {
    Respond(limit, History(limit, rs[..i], rs[i].visitor), rs[i].at).1
  }

  /** The times at which requests of `v` were let through. */
  function AdmittedTimes(limit: int, rs: seq<Request>, v: string): seq<real> {
    if rs == [] then []
    else
      var before := AdmittedTimes(limit, rs[..|rs| - 1], v);
      if rs[|rs| - 1].visitor == v && OutcomeOf(limit, rs, |rs| - 1) == Admitted
      then before + [rs[|rs| - 1].at] else before
  }

  /** How many of the times lie in the closed interval. */
  function CountIn(times: seq<real>, lo: real, hi: real): nat {
    if times == [] then 0
    else CountIn(times[..|times| - 1], lo, hi) + if lo <= times[|times| - 1] <= hi then 1 else 0
  }

  ghost predicate ClockNeverGoesBack(rs: seq<Request>) {
    forall i, j :: 0 <= i < j < |rs| ==> rs[i].at <= rs[j].at
  }

  lemma {:induction false} PruneDropsOldPrefix(history: seq<real>, cutoff: real) returns (k: nat)
    ensures k <= |history| && Prune(history, cutoff) == history[k..]
    ensures forall i :: 0 <= i < k ==> history[i] < cutoff
    ensures k < |history| ==> history[k] >= cutoff
  {
    if history != [] && history[0] < cutoff {
      var m := PruneDropsOldPrefix(history[1..], cutoff);
      k := m + 1;
    } else {
      k := 0;
    }
  }

  /** The deque is a suffix of the admitted times; what was dropped had left the window by `asOf`. */
  ghost predicate Tracks(times: seq<real>, history: seq<real>, dropped: nat, limit: int, asOf: real) {
    && dropped <= |times|
    && history == times[dropped..]
    && |history| <= limit
    && (forall i, j :: 0 <= i < j < |times| ==> times[i] <= times[j])
    && (forall i :: 0 <= i < |times| ==> times[i] <= asOf)
    && (forall i :: 0 <= i < dropped ==> times[i] < asOf - WINDOW)
  }

  lemma {:induction false} CountInBound(times: seq<real>, lo: real, hi: real, k: nat)
    requires k <= |times| && forall i :: 0 <= i < k ==> times[i] < lo
    ensures CountIn(times, lo, hi) <= |times| - k
    ensures (forall i :: k <= i < |times| ==> lo <= times[i] <= hi) ==> CountIn(times, lo, hi) == |times| - k
  {
    if |times| > 0 {
      CountInBound(times[..|times| - 1], lo, hi, if k == |times| then k - 1 else k);
    }
  }

  /** What a request finds in the deque is exactly what was admitted within its window. */
  lemma KeptIsTheWindow(times: seq<real>, history: seq<real>, dropped: nat, limit: int, now: real) returns (k: nat)
    requires Tracks(times, history, dropped, limit, now)
    ensures dropped <= k <= |times| && Prune(history, now - WINDOW) == times[k..]
    ensures forall i :: 0 <= i < k ==> times[i] < now - WINDOW
    ensures forall i :: k <= i < |times| ==> now - WINDOW <= times[i] <= now
    ensures |times| - k == CountIn(times, now - WINDOW, now)
  {
    hide CountIn, Prune;
    var m := PruneDropsOldPrefix(history, now - WINDOW);
    k := dropped + m;
    assert times[dropped..][m..] == times[k..];
    forall i | 0 <= i < k ensures times[i] < now - WINDOW {
      assert i >= dropped ==> times[i] == history[i - dropped];
    }
    assert k < |times| ==> times[k] == history[m];
    CountInBound(times, now - WINDOW, now, k);
  }

  /** Answering a request keeps the deque a suffix of the admitted times. */
  lemma RespondTracks(times: seq<real>, history: seq<real>, dropped: nat, limit: int, now: real) returns (k: nat)
    requires limit >= 1 && Tracks(times, history, dropped, limit, now)
    ensures var (after, outcome) := Respond(limit, history, now);
            Tracks(if outcome == Admitted then times + [now] else times, after, k, limit, now)
  {
    hide CountIn, Prune, Truncate;
    k := KeptIsTheWindow(times, history, dropped, limit, now);
    assert |Prune(history, now - WINDOW)| <= |history|;
    assert (times + [now])[k..] == times[k..] + [now];
  }

  lemma {:induction false} HistoryTracks(limit: int, rs: seq<Request>, v: string, asOf: real) returns (dropped: nat)
    requires limit >= 1 && ClockNeverGoesBack(rs) && forall i :: 0 <= i < |rs| ==> rs[i].at <= asOf
    ensures Tracks(AdmittedTimes(limit, rs, v), History(limit, rs, v), dropped, limit, asOf)
  {
    hide Respond;
    if rs == [] {
      dropped := 0;
    } else {
      var init, last := rs[..|rs| - 1], rs[|rs| - 1];
      dropped := HistoryTracks(limit, init, v, last.at);
      if last.visitor == v {
        dropped := RespondTracks(AdmittedTimes(limit, init, v), History(limit, init, v), dropped, limit, last.at);
      }
    }
  }

  lemma WindowOfLatestRequest(limit: int, rs: seq<Request>, v: string, lo: real)
    requires limit >= 1 && ClockNeverGoesBack(rs) && rs != [] && lo <= rs[|rs| - 1].at <= lo + WINDOW
    ensures CountIn(AdmittedTimes(limit, rs, v), lo, lo + WINDOW) <= limit
  {
    hide CountIn, AdmittedTimes, History;
    var dropped := HistoryTracks(limit, rs, v, rs[|rs| - 1].at);
    CountInBound(AdmittedTimes(limit, rs, v), lo, lo + WINDOW, dropped);
  }

  /** Every closed sixty-second interval of every run contains at most `limit` admitted requests per visitor. */
  lemma {:induction false} AtMostLimitPerWindow(limit: int, rs: seq<Request>, v: string, lo: real)
    requires limit >= 1 && ClockNeverGoesBack(rs)
    ensures CountIn(AdmittedTimes(limit, rs, v), lo, lo + 60.0) <= limit
  {
    hide OutcomeOf;
    if rs != [] {
      if lo <= rs[|rs| - 1].at <= lo + WINDOW {
        WindowOfLatestRequest(limit, rs, v, lo);
      } else {
        AtMostLimitPerWindow(limit, rs[..|rs| - 1], v, lo);
      }
    }
  }

  /** A request is refused exactly when `limit` requests of its visitor were admitted in the last sixty seconds. */
  lemma RejectedIffWindowFull(limit: int, rs: seq<Request>, i: nat)
    requires limit >= 1 && ClockNeverGoesBack(rs) && i < |rs|
    ensures OutcomeOf(limit, rs, i) != Crashed
    ensures OutcomeOf(limit, rs, i).Rejected? <==>
            CountIn(AdmittedTimes(limit, rs[..i], rs[i].visitor), rs[i].at - 60.0, rs[i].at) == limit
  {
    hide CountIn, Prune, History, AdmittedTimes, Truncate;
    var v, now := rs[i].visitor, rs[i].at;
    var times, history := AdmittedTimes(limit, rs[..i], v), History(limit, rs[..i], v);
    var dropped := HistoryTracks(limit, rs[..i], v, now);
    var k := KeptIsTheWindow(times, history, dropped, limit, now);
  }

  function OnlyOf(rs: seq<Request>, v: string): seq<Request> {
    if rs == [] then []
    else
      var before := OnlyOf(rs[..|rs| - 1], v);
      if rs[|rs| - 1].visitor == v then before + [rs[|rs| - 1]] else before
  }

  /** Visitors do not affect each other: a visitor's deque and admissions are those of its own requests alone. */
  lemma {:induction false} VisitorsAreIndependent(limit: int, rs: seq<Request>, v: string)
    ensures History(limit, rs, v) == History(limit, OnlyOf(rs, v), v)
    ensures AdmittedTimes(limit, rs, v) == AdmittedTimes(limit, OnlyOf(rs, v), v)
  {
    if rs != [] {
      VisitorsAreIndependent(limit, rs[..|rs| - 1], v);
      var own := OnlyOf(rs, v);
      if rs[|rs| - 1].visitor == v {
        assert own[..|own| - 1] == OnlyOf(rs[..|rs| - 1], v);
      }
    }
  }

  /**
    * A visitor refused at the end of `rs` is let in at `t`, with no request of its own in between, exactly
    * when the oldest time still counted has left the window. So waiting the announced Retry-After seconds
    * is never enough, and one second more always is.
    */
  lemma RetryAfterFallsShort(limit: int, rs: seq<Request>, now: real, v: string, t: real)
    requires limit >= 1 && ClockNeverGoesBack(rs + [Request(v, now)]) && t >= now
    requires Respond(limit, History(limit, rs, v), now).1.Rejected?
    ensures var (kept, refusal) := Respond(limit, History(limit, rs, v), now);
            var later := Respond(limit, kept, t).1;
            && kept != []
            && 0 <= refusal.retryAfter <= 60
            && refusal.retryAfter as real <= 60.0 - (now - kept[0]) < (refusal.retryAfter + 1) as real
            && (later == Admitted <==> kept[0] < t - 60.0)
            && (t == now + refusal.retryAfter as real ==> later.Rejected?)
            && (t == now + (refusal.retryAfter + 1) as real ==> later == Admitted)
  {
    hide CountIn, History, AdmittedTimes;
    var all := rs + [Request(v, now)];
    assert all[..|rs|] == rs && forall i :: 0 <= i < |rs| ==> all[i] == rs[i] && rs[i].at <= all[|rs|].at;
    var times, history := AdmittedTimes(limit, rs, v), History(limit, rs, v);
    var dropped := HistoryTracks(limit, rs, v, now);
    var k := KeptIsTheWindow(times, history, dropped, limit, now);
    var (kept, refusal) := Respond(limit, history, now);
    assert kept[0] == times[k] && now - WINDOW <= kept[0] <= now;
    var m := PruneDropsOldPrefix(kept, t - WINDOW);
  }

  /** One more request changes its own visitor's deque, as its answer says, and no other. */
  lemma LogOneRequest(limit: int, rs: seq<Request>, r: Request)
    ensures OutcomeOf(limit, rs + [r], |rs|) == Respond(limit, History(limit, rs, r.visitor), r.at).1
    ensures forall v :: History(limit, rs + [r], v) ==
              if v == r.visitor then Respond(limit, History(limit, rs, v), r.at).0 else History(limit, rs, v)
  {
  }

  class RateLimiterMiddleware {
    const requestsPerMinute: int
    var visitorHistory: map<string, seq<real>>
    ghost var log: seq<Request>                // every request dispatched so far

    ghost predicate Valid()
      reads this
    {
      forall v :: History(requestsPerMinute, log, v) == if v in visitorHistory then visitorHistory[v] else []
    }

    constructor (requestsPerMinute: int)
      ensures Valid() && log == [] && this.requestsPerMinute == requestsPerMinute
    {
      this.requestsPerMinute := requestsPerMinute;
      visitorHistory, log := map[], [];
    }

    method Dispatch(visitorId: string, now: real) returns (outcome: Outcome)
      requires Valid()
      modifies this
      ensures Valid() && log == old(log) + [Request(visitorId, now)]
      ensures outcome == OutcomeOf(requestsPerMinute, log, |log| - 1)
      ensures forall v :: v != visitorId ==>
                (v in visitorHistory <==> v in old(visitorHistory))
                && (v in visitorHistory ==> visitorHistory[v] == old(visitorHistory)[v])
    {
      hide Truncate, History, OutcomeOf;
      LogOneRequest(requestsPerMinute, log, Request(visitorId, now));
      log := log + [Request(visitorId, now)];
      if visitorId !in visitorHistory {
        visitorHistory := visitorHistory[visitorId := []];
      }
      var history := visitorHistory[visitorId];
      while history != [] && history[0] < now - WINDOW
        invariant Prune(history, now - WINDOW) == Prune(visitorHistory[visitorId], now - WINDOW)
        decreases |history|
      {
        history := history[1..];
      }
      if |history| >= requestsPerMinute {
        visitorHistory := visitorHistory[visitorId := history];
        if history == [] {
          return Crashed;
        }
        return Rejected(Truncate(WINDOW - (now - history[0])));
      }
      visitorHistory := visitorHistory[visitorId := history + [now]];
      return Admitted;
    }
  }
}
