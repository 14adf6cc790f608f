/** The background checks that alert a workspace's owner, and the state that keeps them from repeating. */
module AutoChat {
  import opened Wrappers
  import opened Text
  import opened Sorting

  /** Microseconds since the epoch, in UTC. */
  type Time = int

  const MINUTE: Time := 60 * 1_000_000
  const HOUR: Time := 60 * MINUTE
  const DAY: Time := 24 * HOUR
  const BUFFER: Time := 15 * MINUTE
  const HISTORY_LENGTH := 50
  const DIGEST_HOUR := 15

  // ---------------------------------------------------------------- calendar conflicts

  datatype Meeting = Meeting(title: Option<string>, start: Time, end: Option<Time>)

  datatype Kind = Overlap | TightBuffer

  datatype Conflict = Conflict(kind: Kind, title1: Option<string>, title2: Option<string>, conflictAt: Time)

  /** Comparing a missing end with a time raises. */
  datatype SweepError = TypeError

  /** Some earlier meeting ends after meeting `j` starts. */
  ghost predicate OverlapsEarlier(ms: seq<Meeting>, j: nat)
    requires j < |ms|
  {
    exists i :: 0 <= i < j && ms[i].end.Some? && ms[i].end.value > ms[j].start
  }

  /** Some earlier meeting ends less than fifteen minutes before meeting `j` starts. */
  ghost predicate CloseToEarlier(ms: seq<Meeting>, j: nat)
    requires j < |ms|
  {
    exists i :: 0 <= i < j && ms[i].end.Some? && 0 <= ms[j].start - ms[i].end.value < 900_000_000
  }

  /** Meeting `i` is the first of those before `j` that end last. */
  ghost predicate EndsLast(ms: seq<Meeting>, j: nat, i: nat)
    requires j <= |ms|
  {
    && i < j && ms[i].end.Some?
    && (forall k :: 0 <= k < j && ms[k].end.Some? ==> ms[k].end.value <= ms[i].end.value)
    && (forall k :: 0 <= k < i && ms[k].end.Some? ==> ms[k].end.value < ms[i].end.value)
  }

  /** A missing end is harmless only before the first known one. */
  ghost predicate MissingEndAfterKnown(ms: seq<Meeting>) {
    exists i, j :: 0 <= i < j < |ms| && ms[i].end.Some? && ms[j].end.None?
  }

  ghost predicate Reported(ms: seq<Meeting>, j: nat)
    requires j < |ms|
  {
    OverlapsEarlier(ms, j) || CloseToEarlier(ms, j)
  }

  /** The entry for meeting `j`, naming the earlier meeting that ends last. */
  ghost predicate Describes(ms: seq<Meeting>, j: nat, c: Conflict)
    requires j < |ms|
  {
    && c.kind == (if OverlapsEarlier(ms, j) then Overlap else TightBuffer)
    && (exists i: nat :: EndsLast(ms, j, i) && c.title1 == ms[i].title)
    && c.title2 == ms[j].title
    && c.conflictAt == ms[j].start
  }

  /** The pairwise definition: each of the first `n` meetings compared with all before it, in order. */
  ghost predicate IsReport(ms: seq<Meeting>, n: nat, conflicts: seq<Conflict>)
    requires n <= |ms|
  {
    if n == 0 then conflicts == []
    else if Reported(ms, n - 1) then
      && conflicts != []
      && IsReport(ms, n - 1, conflicts[..|conflicts| - 1])
      && Describes(ms, n - 1, conflicts[|conflicts| - 1])
    else IsReport(ms, n - 1, conflicts)
  }

  /** There is only one report to give. */
  lemma {:induction false} ReportIsUnique(ms: seq<Meeting>, n: nat, a: seq<Conflict>, b: seq<Conflict>)
    requires n <= |ms| && IsReport(ms, n, a) && IsReport(ms, n, b)
    ensures a == b
  {
    hide OverlapsEarlier, CloseToEarlier;
    if n > 0 && Reported(ms, n - 1) {
      ReportIsUnique(ms, n - 1, a[..|a| - 1], b[..|b| - 1]);
      assert a == a[..|a| - 1] + [a[|a| - 1]] && b == b[..|b| - 1] + [b[|b| - 1]];
    } else if n > 0 {
      ReportIsUnique(ms, n - 1, a, b);
    }
  }

  /** The latest end seen so far, and whose it is. */
  ghost predicate Tracks(ms: seq<Meeting>, n: nat, maxEnd: Option<Time>, prevTitle: Option<string>, latest: nat)
    requires n <= |ms|
  {
    if maxEnd.None? then forall k :: 0 <= k < n ==> ms[k].end.None?
    else
      && EndsLast(ms, n, latest) && maxEnd == ms[latest].end && prevTitle == ms[latest].title
      && forall k :: latest <= k < n ==> ms[k].end.Some?
  }

  lemma ReportOne(ms: seq<Meeting>, n: nat, conflicts: seq<Conflict>, maxEnd: Option<Time>, prevTitle: Option<string>, latest: nat)
    requires n < |ms| && IsReport(ms, n, conflicts) && Tracks(ms, n, maxEnd, prevTitle, latest)
    ensures maxEnd.None? ==> IsReport(ms, n + 1, conflicts)
    ensures maxEnd.Some? && ms[n].start < maxEnd.value ==>
              IsReport(ms, n + 1, conflicts + [Conflict(Overlap, prevTitle, ms[n].title, ms[n].start)])
    ensures maxEnd.Some? && 0 <= ms[n].start - maxEnd.value < BUFFER ==>
              IsReport(ms, n + 1, conflicts + [Conflict(TightBuffer, prevTitle, ms[n].title, ms[n].start)])
    ensures maxEnd.Some? && ms[n].start - maxEnd.value >= BUFFER ==> IsReport(ms, n + 1, conflicts)
  {
  }

  lemma TrackOne(ms: seq<Meeting>, n: nat, maxEnd: Option<Time>, prevTitle: Option<string>, latest: nat)
    requires n < |ms| && Tracks(ms, n, maxEnd, prevTitle, latest)
    ensures maxEnd.None? || (ms[n].end.Some? && ms[n].end.value > maxEnd.value) ==> Tracks(ms, n + 1, ms[n].end, ms[n].title, n)
    ensures maxEnd.Some? && ms[n].end.Some? && ms[n].end.value <= maxEnd.value ==> Tracks(ms, n + 1, maxEnd, prevTitle, latest)
    ensures maxEnd.Some? && ms[n].end.None? ==> MissingEndAfterKnown(ms)
  {
  }

  /** The linear sweep: one pass, remembering only the latest end so far and whose it is. */
  method Sweep(ms: seq<Meeting>) returns (r: Result<seq<Conflict>, SweepError>)
    ensures r.Err? <==> MissingEndAfterKnown(ms)
    ensures r.Ok? ==> IsReport(ms, |ms|, r.value)
  {
    var conflicts: seq<Conflict> := [];
    assert IsReport(ms, 0, conflicts);
    var maxEnd: Option<Time> := None;
    var prevTitle: Option<string> := None;
    ghost var latest: nat := 0;
    assert Tracks(ms, 0, maxEnd, prevTitle, latest);
    hide IsReport, Tracks;
    for n := 0 to |ms|
      invariant IsReport(ms, n, conflicts)
      invariant Tracks(ms, n, maxEnd, prevTitle, latest)
      invariant maxEnd.None? <==> forall i :: 0 <= i < n ==> ms[i].end.None?
      invariant forall i, j :: 0 <= i < j < n && ms[i].end.Some? ==> ms[j].end.Some?
    {
      var m := ms[n];
      ReportOne(ms, n, conflicts, maxEnd, prevTitle, latest);
      TrackOne(ms, n, maxEnd, prevTitle, latest);
      if maxEnd.Some? {
        if m.start < maxEnd.value {
          conflicts := conflicts + [Conflict(Overlap, prevTitle, m.title, m.start)];
        } else if m.start - maxEnd.value < BUFFER {
          conflicts := conflicts + [Conflict(TightBuffer, prevTitle, m.title, m.start)];
        }
      }
      if maxEnd.None? {
        maxEnd, prevTitle := m.end, m.title;
        latest := n;
      } else if m.end.None? {
        return Err(TypeError);
      } else if m.end.value > maxEnd.value {
        maxEnd, prevTitle := m.end, m.title;
        latest := n;
      }
    }
    return Ok(conflicts);
  }

  predicate During(t: Time, m: Meeting) {
    m.end.Some? && m.start <= t < m.end.value
  }

  ghost predicate ShareMoment(a: Meeting, b: Meeting) {
    exists t :: During(t, a) && During(t, b)
  }

  /** On meetings sorted by start, a reported overlap is two meetings with a moment in common. */
  lemma OverlapIsSharedMoment(ms: seq<Meeting>, j: nat)
    requires j < |ms| && ms[j].end.Some? && ms[j].start < ms[j].end.value
    requires forall i :: 0 <= i < j ==> ms[i].start <= ms[j].start
    ensures OverlapsEarlier(ms, j) <==> exists i :: 0 <= i < j && ShareMoment(ms[i], ms[j])
  {
    if OverlapsEarlier(ms, j) {
      var i :| 0 <= i < j && ms[i].end.Some? && ms[i].end.value > ms[j].start;
      assert During(ms[j].start, ms[i]) && During(ms[j].start, ms[j]);
      assert ShareMoment(ms[i], ms[j]);
    }
  }

  // ---------------------------------------------------------------- fingerprints

  ghost predicate Unambiguous(iso: Time -> string) {
    forall t, u :: '|' !in iso(t) && (iso(t) == iso(u) ==> t == u)
  }

  /** All that matters of ISO 8601 text: different times read differently, and none holds a bar. */
  type IsoFormat = iso: Time -> string | Unambiguous(iso)
    ghost witness (NumeralsAreUnambiguous(); PrintInt)

  lemma NumeralsAreUnambiguous()
    ensures Unambiguous(PrintInt)
  {
    forall t, u ensures '|' !in PrintInt(t) && (PrintInt(t) == PrintInt(u) ==> t == u) {
      ParsePrint(t);
      ParsePrint(u);
      var digits := Print(if t < 0 then -t else t);
      assert forall i :: 0 <= i < |digits| ==> IsDigit(digits[i]) && digits[i] != '|';
    }
  }

  function ShowTitle(title: Option<string>): string {
    if title.Some? then title.value else "None"
  }

  function Line(iso: IsoFormat, c: Conflict): string {
    ShowTitle(c.title1) + ([':'] + (ShowTitle(c.title2) + ([':'] + iso(c.conflictAt))))
  }

  function Lines(iso: IsoFormat, cs: seq<Conflict>): seq<string> {
    Map(c => Line(iso, c), cs)
  }

  function Fingerprint(iso: IsoFormat, cs: seq<Conflict>): string
    requires cs != []
  {
    assert |Sort(LexLeq, Lines(iso, cs))| == |multiset(Sort(LexLeq, Lines(iso, cs)))| == |Lines(iso, cs)|;
    Join(Sort(LexLeq, Lines(iso, cs)), '|')
  }

  /** A conflict without its kind. */
  function Unkind(c: Conflict): Conflict {
    c.(kind := Overlap)
  }

  function Unkinded(cs: seq<Conflict>): seq<Conflict> {
    Map(Unkind, cs)
  }

  predicate CleanTitle(title: Option<string>) {
    title.Some? && ':' !in title.value && '|' !in title.value
  }

  ghost predicate Clean(cs: seq<Conflict>) {
    forall c :: c in cs ==> CleanTitle(c.title1) && CleanTitle(c.title2)
  }

  /** The line of a conflict with clean titles says everything about it but its kind. */
  lemma LinesAgreeExactly(iso: IsoFormat, c: Conflict, d: Conflict)
    requires CleanTitle(c.title1) && CleanTitle(c.title2) && CleanTitle(d.title1) && CleanTitle(d.title2)
    ensures Line(iso, c) == Line(iso, d) <==> Unkind(c) == Unkind(d)
    ensures '|' !in Line(iso, c)
  {
    SeparatorSplits(':', c.title2.value, iso(c.conflictAt), d.title2.value, iso(d.conflictAt));
    SeparatorSplits(':', c.title1.value, c.title2.value + ([':'] + iso(c.conflictAt)),
                    d.title1.value, d.title2.value + ([':'] + iso(d.conflictAt)));
  }

  lemma EqualLinesEqualFingerprints(iso: IsoFormat, a: seq<Conflict>, b: seq<Conflict>)
    requires a != [] && b != [] && multiset(Lines(iso, a)) == multiset(Lines(iso, b))
    ensures Fingerprint(iso, a) == Fingerprint(iso, b)
  {
    LexIsTotalOrder();
    PermutationsSortAlike(LexLeq, Lines(iso, a), Lines(iso, b));
  }

  /** Where no line holds a bar, the fingerprint says which lines there are, each how often, and nothing else. */
  lemma FingerprintsShowLines(iso: IsoFormat, a: seq<Conflict>, b: seq<Conflict>)
    requires a != [] && b != []
    requires forall line :: line in Lines(iso, a) || line in Lines(iso, b) ==> '|' !in line
    ensures Fingerprint(iso, a) == Fingerprint(iso, b) <==> multiset(Lines(iso, a)) == multiset(Lines(iso, b))
  {
    var x, y := Sort(LexLeq, Lines(iso, a)), Sort(LexLeq, Lines(iso, b));
    assert |x| == |multiset(x)| == |a| && |y| == |multiset(y)| == |b|;
    assert Fingerprint(iso, a) == Join(x, '|') && Fingerprint(iso, b) == Join(y, '|');
    if multiset(Lines(iso, a)) == multiset(Lines(iso, b)) {
      EqualLinesEqualFingerprints(iso, a, b);
    } else {
      hide Sort, Join, Lines, Fingerprint;
      forall line | line in x || line in y ensures '|' !in line {
        assert line in multiset(x) || line in multiset(y);
      }
      JoinIsInjective(x, y, '|');
    }
  }

  /** The fingerprint names the conflicts, not the order they were found in. */
  lemma FingerprintForgetsOrder(iso: IsoFormat, a: seq<Conflict>, b: seq<Conflict>)
    requires a != [] && multiset(a) == multiset(b)
    ensures b != [] && Fingerprint(iso, a) == Fingerprint(iso, b)
  {
    assert a[0] in multiset(b);
    MapOfPermutation(Unkind, a, b);
    FingerprintForgetsKind(iso, a, b);
  }

  /** It does not say whether a conflict is an overlap: a conflict that changes kind raises no new alert. */
  lemma FingerprintForgetsKind(iso: IsoFormat, a: seq<Conflict>, b: seq<Conflict>)
    requires a != [] && b != [] && multiset(Unkinded(a)) == multiset(Unkinded(b))
    ensures Fingerprint(iso, a) == Fingerprint(iso, b)
  {
    MapReflects(Unkind, c => Line(iso, c), a, b);
    EqualLinesEqualFingerprints(iso, a, b);
  }

  /**
    * What the fingerprint stands for: with titles that are present and hold no separator, two reports have the
    * same one exactly when they list the same conflicts, each as often, up to order and kind.
    */
  lemma FingerprintsAgreeExactly(iso: IsoFormat, a: seq<Conflict>, b: seq<Conflict>)
    requires a != [] && b != [] && Clean(a) && Clean(b)
    ensures Fingerprint(iso, a) == Fingerprint(iso, b) <==> multiset(Unkinded(a)) == multiset(Unkinded(b))
  {
    if multiset(Unkinded(a)) == multiset(Unkinded(b)) {
      FingerprintForgetsKind(iso, a, b);
    } else if Fingerprint(iso, a) == Fingerprint(iso, b) {
      hide Fingerprint, Line;
      forall c, d | c in a + b && d in a + b
        ensures (Line(iso, c) == Line(iso, d) ==> Unkind(c) == Unkind(d)) && '|' !in Line(iso, c)
      {
        assert (c in a || c in b) && (d in a || d in b);
        LinesAgreeExactly(iso, c, d);
      }
      assert forall c :: c in a || c in b ==> c in a + b;
      FingerprintsShowLines(iso, a, b);
      MapReflects(c => Line(iso, c), Unkind, a, b);
    }
  }

  /** Titles with separators collide, and so does a missing title with one that says so. */
  lemma TitlesWithSeparatorsCollide(iso: IsoFormat, t: Time, title: string)
    ensures var a, b := Conflict(Overlap, Some("a:b"), Some("c"), t), Conflict(Overlap, Some("a"), Some("b:c"), t);
            Unkind(a) != Unkind(b) && Fingerprint(iso, [a]) == Fingerprint(iso, [b])
    ensures var a, b := Conflict(Overlap, None, Some(title), t), Conflict(Overlap, Some("None"), Some(title), t);
            Unkind(a) != Unkind(b) && Fingerprint(iso, [a]) == Fingerprint(iso, [b])
  {
    var a, b := Conflict(Overlap, Some("a:b"), Some("c"), t), Conflict(Overlap, Some("a"), Some("b:c"), t);
    assert Line(iso, a) == Line(iso, b) == "a:b:c:" + iso(t);
    assert Lines(iso, [a]) == [Line(iso, a)] == Lines(iso, [b]);
    var c, d := Conflict(Overlap, None, Some(title), t), Conflict(Overlap, Some("None"), Some(title), t);
    assert Lines(iso, [c]) == [Line(iso, c)] == Lines(iso, [d]);
  }

  // ---------------------------------------------------------------- alerts that must not repeat

  function DayOf(t: Time): int {
    t / DAY
  }

  function HourOf(t: Time): int {
    t % DAY / HOUR
  }

  function LastOf<T>(s: seq<T>, n: nat): seq<T> {
    if |s| <= n then s else s[|s| - n..]
  }

  /** The meeting-prep alerts ever sent, after a pass over `upcoming`. */
  function PrepPass(log: seq<string>, upcoming: seq<string>, hasOwner: bool, delivers: string -> bool): seq<string>
    decreases |upcoming|
  {
    if upcoming == [] then log
    else
      var m := upcoming[0];
      PrepPass(if m in LastOf(log, HISTORY_LENGTH) || !hasOwner || !delivers(m) then log else log + [m],
               upcoming[1..], hasOwner, delivers)
  }

  lemma LastOfLonger<T>(log: seq<T>, m: T, n: nat, x: T)
    requires n > 0 && x in LastOf(log + [m], n)
    ensures x == m || x in LastOf(log, n)
  {
    var last, more := LastOf(log, n), LastOf(log + [m], n);
    var i :| 0 <= i < |more| && more[i] == x;
    if i < |more| - 1 {
      assert x == log[|log| + 1 - |more| + i];
      assert log[|log| + 1 - |more| + i] == last[|last| + 1 - |more| + i];
    }
  }

  /** A pass adds alerts only for upcoming meetings that go through, and for every such meeting not alerted lately. */
  lemma {:induction false} PassRecordsDue(log: seq<string>, upcoming: seq<string>, hasOwner: bool, delivers: string -> bool)
    ensures var after := PrepPass(log, upcoming, hasOwner, delivers);
            && log <= after
            && (forall m :: m in after[|log|..] ==> hasOwner && m in upcoming && delivers(m))
            && (forall m :: m in upcoming && hasOwner && delivers(m) ==> m in after[|log|..] || m in LastOf(log, 50))
    decreases |upcoming|
  {
    if upcoming != [] {
      var m, rest := upcoming[0], upcoming[1..];
      var next := if m in LastOf(log, 50) || !hasOwner || !delivers(m) then log else log + [m];
      var after := PrepPass(next, rest, hasOwner, delivers);
      PassRecordsDue(next, rest, hasOwner, delivers);
      assert PrepPass(log, upcoming, hasOwner, delivers) == after;
      hide PrepPass;
      assert forall x :: x in upcoming <==> x == m || x in rest;
      assert next == log || (next == log + [m] && after[|log|] == m);
      assert after[|log|..] == (if next == log then [] else [m]) + after[|next|..];
      forall x | x in LastOf(next, 50) ensures x in after[|log|..] || x in LastOf(log, 50) {
        if next != log {
          LastOfLonger(log, m, 50, x);
        }
      }
    }
  }

  /** Between two alerts for one meeting lie at least fifty alerts for other meetings. */
  ghost predicate FiftyApart(log: seq<string>) {
    forall i, j :: 0 <= i < j < |log| && log[i] == log[j] ==> j - i > 50
  }

  lemma RememberFifty(log: seq<string>, m: string)
    requires FiftyApart(log) && m !in LastOf(log, HISTORY_LENGTH)
    ensures FiftyApart(log + [m])
    ensures LastOf(log + [m], HISTORY_LENGTH) == LastOf(LastOf(log, HISTORY_LENGTH) + [m], HISTORY_LENGTH)
  {
  }

  /** Two moments fall on one day exactly if one stretch of twenty-four hours from midnight holds both. */
  lemma SameDayExactly(t: Time, u: Time)
    ensures DayOf(t) == DayOf(u) <==>
            exists d: int :: d * 86_400_000_000 <= t < (d + 1) * 86_400_000_000 && d * 86_400_000_000 <= u < (d + 1) * 86_400_000_000
  {
    var d := DayOf(t);
    assert d * 86_400_000_000 <= t < (d + 1) * 86_400_000_000;
    assert DayOf(u) * 86_400_000_000 <= u < (DayOf(u) + 1) * 86_400_000_000;
  }

  /** No two digests in a row on one day. */
  ghost predicate DaysChange(log: seq<Time>) {
    forall i :: 0 < i < |log| ==> DayOf(log[i - 1]) != DayOf(log[i])
  }

  /** Each digest on a later day than all before. */
  ghost predicate DaysRise(log: seq<Time>) {
    forall i, j :: 0 <= i < j < |log| ==> DayOf(log[i]) < DayOf(log[j])
  }

  /** No digest on an earlier day than the one before it, whose date is the one that is stored. */
  ghost predicate DayNeverGoesBack(log: seq<Time>) {
    forall k :: 0 < k < |log| ==> DayOf(log[k - 1]) <= DayOf(log[k])
  }

  /** One digest a day, each on a later day, exactly if the day never goes back from one digest to the next. */
  lemma {:induction false} OnePerDay(log: seq<Time>)
    requires DaysChange(log)
    ensures DaysRise(log) <==> DayNeverGoesBack(log)
    ensures (forall k :: 0 < k < |log| ==> log[k - 1] <= log[k]) ==> DayNeverGoesBack(log)
  {
    forall t, u | t <= u ensures DayOf(t) <= DayOf(u) {
    }
    hide DayOf;
    if DayNeverGoesBack(log) && log != [] {
      var init, last := log[..|log| - 1], |log| - 1;
      assert DaysChange(init) && DayNeverGoesBack(init);
      OnePerDay(init);
      forall i | 0 <= i < last ensures DayOf(log[i]) < DayOf(log[last]) {
        assert DayOf(log[last - 1]) <= DayOf(log[last]) && DayOf(log[last - 1]) != DayOf(log[last]);
        assert i < last - 1 ==> DayOf(init[i]) < DayOf(init[last - 1]);
      }
      assert forall i, j :: 0 <= i < j < last ==> DayOf(init[i]) < DayOf(init[j]);
    }
  }

  /** Two reports alerted in a row never have the same fingerprint. */
  ghost predicate NoImmediateRepeat(iso: IsoFormat, log: seq<seq<Conflict>>) {
    && (forall i :: 0 <= i < |log| ==> log[i] != [])
    && (forall i :: 0 < i < |log| ==> Fingerprint(iso, log[i - 1]) != Fingerprint(iso, log[i]))
  }

  /** The persisted `_worker_state` of a workspace, and the alerts actually sent from it. */
  class WorkerState {
    const iso: IsoFormat
    var prepSentIds: seq<string>
    var lastDigestAt: Option<Time>
    var lastFingerprint: Option<string>
    ghost var prepLog: seq<string>
    ghost var digestLog: seq<Time>
    ghost var conflictLog: seq<seq<Conflict>>

    ghost predicate Valid()
      reads this
    {
      && prepSentIds == LastOf(prepLog, HISTORY_LENGTH)
      && FiftyApart(prepLog)
      && lastDigestAt == (if digestLog == [] then None else Some(digestLog[|digestLog| - 1]))
      && DaysChange(digestLog)
      && (forall i :: 0 <= i < |digestLog| ==> HourOf(digestLog[i]) == DIGEST_HOUR)
      && NoImmediateRepeat(iso, conflictLog)
      && lastFingerprint == (if conflictLog == [] then None else Some(Fingerprint(iso, conflictLog[|conflictLog| - 1])))
    }

    constructor (iso: IsoFormat)
      ensures Valid() && this.iso == iso && prepLog == [] && digestLog == [] && conflictLog == []
    {
      this.iso := iso;
      prepSentIds, lastDigestAt, lastFingerprint := [], None, None;
      prepLog, digestLog, conflictLog := [], [], [];
    }

    /** `delivers(m)` tells whether the alert for meeting `m` goes through. */
    method CheckMeetingPrep(upcoming: seq<string>, hasOwner: bool, delivers: string -> bool)
      requires Valid()
      modifies `prepSentIds, `prepLog
      ensures Valid()
      ensures prepLog == PrepPass(old(prepLog), upcoming, hasOwner, delivers)
      ensures old(prepLog) <= prepLog
      ensures forall m :: m in prepLog[|old(prepLog)|..] ==> hasOwner && m in upcoming && delivers(m)
      ensures forall m :: m in upcoming && hasOwner && delivers(m) ==>
                m in prepLog[|old(prepLog)|..] || m in old(prepSentIds)
      ensures |prepSentIds| == if |prepLog| <= 50 then |prepLog| else 50
      ensures prepSentIds == prepLog[|prepLog| - |prepSentIds|..]
    {
      hide FiftyApart, DaysChange, NoImmediateRepeat, HourOf, Fingerprint;
      PassRecordsDue(prepLog, upcoming, hasOwner, delivers);
      for n := 0 to |upcoming|
        invariant Valid()
        invariant PrepPass(prepLog, upcoming[n..], hasOwner, delivers) == PrepPass(old(prepLog), upcoming, hasOwner, delivers)
      {
        var m := upcoming[n];
        assert upcoming[n..][1..] == upcoming[n + 1..];
        if m in prepSentIds || !hasOwner || !delivers(m) {
          continue;
        }
        var history := prepSentIds + [m];
        RememberFifty(prepLog, m);
        prepSentIds := LastOf(history, HISTORY_LENGTH);
        prepLog := prepLog + [m];
      }
    }

    /** A digest in the fifteenth hour, unless the last one was sent on the same calendar day. */
    method CheckAfternoonDigest(now: Time, hasActiveOwner: bool, delivers: bool) returns (sent: bool)
      requires Valid()
      modifies `lastDigestAt, `digestLog
      ensures Valid()
      ensures digestLog == if sent then old(digestLog) + [now] else old(digestLog)
      ensures sent <==>
              hasActiveOwner && delivers && now % 86_400_000_000 / 3_600_000_000 == 15
              && (old(digestLog) == [] || old(digestLog)[|old(digestLog)| - 1] / 86_400_000_000 != now / 86_400_000_000)
    {
      hide FiftyApart, NoImmediateRepeat, Fingerprint;
      if !hasActiveOwner {
        return false;
      }
      if lastDigestAt.Some? && DayOf(lastDigestAt.value) == DayOf(now) {
        return false;
      }
      if HourOf(now) == DIGEST_HOUR && delivers {
        lastDigestAt := Some(now);
        digestLog := digestLog + [now];
        return true;
      }
      return false;
    }

    /** Alerts about the conflicts of the week, unless the last alert was about the same ones. */
    method CheckCalendarConflicts(ms: seq<Meeting>, hasOwner: bool, delivers: bool) returns (sent: bool)
      requires Valid()
      modifies `lastFingerprint, `conflictLog
      ensures Valid()
      ensures !sent ==> conflictLog == old(conflictLog)
      ensures sent ==>
                && hasOwner && delivers && !MissingEndAfterKnown(ms) && |conflictLog| == |old(conflictLog)| + 1
                && conflictLog[..|old(conflictLog)|] == old(conflictLog)
                && IsReport(ms, |ms|, conflictLog[|old(conflictLog)|])
      ensures !sent && hasOwner && delivers && !MissingEndAfterKnown(ms) ==>
                exists cs :: IsReport(ms, |ms|, cs)
                             && (cs == [] || (conflictLog != []
                                              && Fingerprint(iso, conflictLog[|conflictLog| - 1]) == Fingerprint(iso, cs)))
    {
      hide IsReport, Fingerprint, MissingEndAfterKnown, FiftyApart, DaysChange, LastOf, HourOf;
      if |ms| < 2 {
        ShortListHasNoConflict(ms);
        return false;
      }
      var swept := Sweep(ms);
      if swept.Err? || swept.value == [] {
        return false;
      }
      var fingerprint := Fingerprint(iso, swept.value);
      if lastFingerprint == Some(fingerprint) || !hasOwner || !delivers {
        return false;
      }
      lastFingerprint := Some(fingerprint);
      conflictLog := conflictLog + [swept.value];
      return true;
    }
  }

  /** A clock that goes back for a day lets the digest of a day be sent again. */
  method DigestRepeatsDay(iso: IsoFormat) returns (first: bool, other: bool, again: bool)
    ensures first && other && again
  {
    var today, yesterday := DAY + DIGEST_HOUR * HOUR, DIGEST_HOUR * HOUR;
    assert DayOf(today) == 1 && DayOf(yesterday) == 0 && HourOf(today) == HourOf(yesterday) == DIGEST_HOUR;
    var state := new WorkerState(iso);
    hide DayOf, HourOf;
    first := state.CheckAfternoonDigest(today, true, true);
    other := state.CheckAfternoonDigest(yesterday, true, true);
    again := state.CheckAfternoonDigest(today, true, true);
    assert state.digestLog == [today, yesterday, today];
  }

  lemma ShortListHasNoConflict(ms: seq<Meeting>)
    requires |ms| < 2
    ensures !MissingEndAfterKnown(ms) && IsReport(ms, |ms|, [])
  {
  }
}
