/**
 The daily reports built from the sessions: one session per calendar date, the hours of a range of
 days, and the two exports, which match check-outs without using them up.
 */
module DayReports {
  import opened Options
  import opened AttendanceEvents
  import opened AttendanceLog
  import opened SessionPairing
  import opened WorkedHours

  /** Among the first n sessions, number i is the first one with the latest check-in of date d. */
  ghost predicate LatestOf(sessions: seq<Session>, n: nat, dateOf: int -> string, d: string, i: nat)
    requires n <= |sessions|
  {
    && i < n && dateOf(sessions[i].checkIn.at) == d
    && forall j: nat :: j < n && dateOf(sessions[j].checkIn.at) == d ==>
                          sessions[j].checkIn.at <= sessions[i].checkIn.at
                          && (j < i ==> sessions[j].checkIn.at < sessions[i].checkIn.at)
  }

  ghost predicate IsLatest(s: Session, sessions: seq<Session>, n: nat, dateOf: int -> string, d: string)
    requires n <= |sessions|
  {
    exists i: nat :: LatestOf(sessions, n, dateOf, d, i) && s == sessions[i]
  }

  /** The groups are exactly the dates of the sessions, each with its latest session. */
  ghost predicate KeepsLatest(groups: map<string, Session>, sessions: seq<Session>, n: nat, dateOf: int -> string)
    requires n <= |sessions|
  {
    && (forall d :: d in groups ==> d != "" && IsLatest(groups[d], sessions, n, dateOf, d))
    && (forall i: nat :: i < n && dateOf(sessions[i].checkIn.at) != "" ==> dateOf(sessions[i].checkIn.at) in groups)
  }

  /** A group stays as it is when the next session is of another date or not later. */
  lemma StaysLatest(s: Session, sessions: seq<Session>, n: nat, dateOf: int -> string, d: string)
    requires n < |sessions| && IsLatest(s, sessions, n, dateOf, d)
    requires dateOf(sessions[n].checkIn.at) == d ==> sessions[n].checkIn.at <= s.checkIn.at
    ensures IsLatest(s, sessions, n + 1, dateOf, d)
  {
    var i: nat :| LatestOf(sessions, n, dateOf, d, i) && s == sessions[i];
    assert LatestOf(sessions, n + 1, dateOf, d, i);
  }

  lemma BecomesLatest(s: Session, sessions: seq<Session>, n: nat, dateOf: int -> string, d: string)
    requires n < |sessions| && IsLatest(s, sessions, n, dateOf, d)
    requires dateOf(sessions[n].checkIn.at) == d && sessions[n].checkIn.at > s.checkIn.at
    ensures IsLatest(sessions[n], sessions, n + 1, dateOf, d)
  {
    assert LatestOf(sessions, n + 1, dateOf, d, n);
  }

  lemma FirstOfDate(sessions: seq<Session>, n: nat, dateOf: int -> string)
    requires n < |sessions|
    requires forall i: nat :: i < n ==> dateOf(sessions[i].checkIn.at) != dateOf(sessions[n].checkIn.at)
    ensures IsLatest(sessions[n], sessions, n + 1, dateOf, dateOf(sessions[n].checkIn.at))
  {
    assert LatestOf(sessions, n + 1, dateOf, dateOf(sessions[n].checkIn.at), n);
  }

  /** The groups after one more session. */
  function WithSession(groups: map<string, Session>, s: Session, d: string): map<string, Session> {
    if d != "" && (d !in groups || s.checkIn.at > groups[d].checkIn.at) then groups[d := s] else groups
  }

  lemma OneMore(groups: map<string, Session>, sessions: seq<Session>, n: nat, dateOf: int -> string)
    requires n < |sessions| && KeepsLatest(groups, sessions, n, dateOf)
    ensures KeepsLatest(WithSession(groups, sessions[n], dateOf(sessions[n].checkIn.at)), sessions, n + 1, dateOf)
  {
    var s, day := sessions[n], dateOf(sessions[n].checkIn.at);
    var next := WithSession(groups, s, day);
    forall d | d in next ensures d != "" && IsLatest(next[d], sessions, n + 1, dateOf, d) {
      if d !in groups {
        FirstOfDate(sessions, n, dateOf);
      } else if d == day && s.checkIn.at > groups[d].checkIn.at {
        BecomesLatest(groups[d], sessions, n, dateOf, d);
      } else {
        StaysLatest(groups[d], sessions, n, dateOf, d);
      }
    }
  }

  /** The report of the first n sessions: one session per date. */
  function Report(sessions: seq<Session>, n: nat, dateOf: int -> string): map<string, Session>
    requires n <= |sessions|
  {
    if n == 0 then map[]
    else WithSession(Report(sessions, n - 1, dateOf), sessions[n - 1], dateOf(sessions[n - 1].checkIn.at))
  }

  lemma ReportOneMore(sessions: seq<Session>, n: nat, dateOf: int -> string)
    requires n < |sessions| && KeepsLatest(Report(sessions, n, dateOf), sessions, n, dateOf)
    ensures KeepsLatest(Report(sessions, n + 1, dateOf), sessions, n + 1, dateOf)
  {
    OneMore(Report(sessions, n, dateOf), sessions, n, dateOf);
  }

  lemma {:induction false} ReportKeepsLatest(sessions: seq<Session>, n: nat, dateOf: int -> string)
    requires n <= |sessions|
    ensures KeepsLatest(Report(sessions, n, dateOf), sessions, n, dateOf)
  {
    if n > 0 {
      ReportKeepsLatest(sessions, n - 1, dateOf);
      ReportOneMore(sessions, n - 1, dateOf);
    }
  }

  /** Per-day grouping: a session replaces the one of its date only with a strictly later check-in. */
  method GroupByDay(sessions: seq<Session>, dateOf: int -> string) returns (groups: map<string, Session>)
    ensures groups == Report(sessions, |sessions|, dateOf)
    ensures KeepsLatest(groups, sessions, |sessions|, dateOf)
  {
    groups := map[];
    for n := 0 to |sessions|
      invariant groups == Report(sessions, n, dateOf)
    {
      var dateKey := dateOf(sessions[n].checkIn.at);
      if dateKey == "" {
        continue;
      }
      if dateKey !in groups || sessions[n].checkIn.at > groups[dateKey].checkIn.at {
        groups := groups[dateKey := sessions[n]];
      }
    }
    ReportKeepsLatest(sessions, |sessions|, dateOf);
  }

  /** A session counts as worked when it has a check-out after its check-in. */
  predicate Worked(s: Session) {
    s.checkOut.Some? && s.checkOut.value.at > s.checkIn.at
  }

  function ExactHours(s: Session): real {
    if Worked(s) then Hours(s.checkOut.value.at - s.checkIn.at) else 0.0
  }

  function DayHours(s: Session): real {
    if Worked(s) then Round2(ExactHours(s)) else 0.0
  }

  function SumDays(days: seq<Session>, f: Session -> real): real {
    if days == [] then 0.0 else SumDays(days[..|days| - 1], f) + f(days[|days| - 1])
  }

  function DaysWorked(days: seq<Session>): nat {
    if days == [] then 0
    else DaysWorked(days[..|days| - 1]) + if Worked(days[|days| - 1]) then 1 else 0
  }

  /** The reported total: the sum of the rounded days, rounded again. */
  function TotalHoursWorked(days: seq<Session>): real {
    Round2(SumDays(days, DayHours))
  }

  lemma Round2Near(x: real)
    ensures -0.005 <= Round2(x) - x <= 0.005
  {
    var c := (x * 100.0 + 0.5).Floor as real;
    assert x * 100.0 - 0.5 <= c <= x * 100.0 + 0.5;
  }

  lemma FloorHalf(c: int, y: real)
    requires y == c as real + 0.5
    ensures y.Floor == c
  {
  }

  lemma Round2Hundredths(c: int)
    ensures Round2(c as real / 100.0) == c as real / 100.0
  {
    FloorHalf(c, c as real / 100.0 * 100.0 + 0.5);
  }

  lemma {:induction false} DaysAreHundredths(days: seq<Session>) returns (c: int)
    ensures SumDays(days, DayHours) == c as real / 100.0
  {
    if days == [] {
      c := 0;
    } else {
      var last := days[|days| - 1];
      c := DaysAreHundredths(days[..|days| - 1]);
      if Worked(last) {
        var k := (ExactHours(last) * 100.0 + 0.5).Floor;
        assert DayHours(last) == k as real / 100.0;
        c := c + k;
      }
    }
  }

  lemma {:induction false} DaysNearExact(days: seq<Session>)
    ensures var off := SumDays(days, DayHours) - SumDays(days, ExactHours);
            -0.005 * DaysWorked(days) as real <= off <= 0.005 * DaysWorked(days) as real
  {
    if days != [] {
      DaysNearExact(days[..|days| - 1]);
      Round2Near(ExactHours(days[|days| - 1]));
    }
  }

  /** A day counts the time to its check-out, if that is later, to the nearest hundredth of an hour; other days count nothing. */
  lemma HoursOfDay(s: Session)
    ensures if s.checkOut.Some? && s.checkOut.value.at > s.checkIn.at then
              -0.005 < DayHours(s) - (s.checkOut.value.at - s.checkIn.at) as real / 3_600_000.0 <= 0.005
              && exists c: int :: IsHundredths(DayHours(s), c)
            else DayHours(s) == 0.0
  {
    RoundsHalfUp(ExactHours(s));
  }

  /** The reported total of more days is the total of the first and the hours of the last. */
  lemma TotalAddsUp(days: seq<Session>, s: Session)
    ensures TotalHoursWorked([]) == 0.0
    ensures TotalHoursWorked(days + [s]) == TotalHoursWorked(days) + DayHours(s)
  {
    TotalIsNearExact([]);
    TotalIsNearExact(days);
    TotalIsNearExact(days + [s]);
    assert (days + [s])[..|days|] == days;
  }

  /** Rounding the total again changes nothing, and each day worked costs at most half a hundredth. */
  lemma TotalIsNearExact(days: seq<Session>)
    ensures TotalHoursWorked(days) == SumDays(days, DayHours)
    ensures var off := TotalHoursWorked(days) - SumDays(days, ExactHours);
            -0.005 * DaysWorked(days) as real <= off <= 0.005 * DaysWorked(days) as real
  {
    var c := DaysAreHundredths(days);
    Round2Hundredths(c);
    DaysNearExact(days);
  }

  /** The exports: each check-in takes the first later check-out of the list, used or not. */
  function Loose(ins: seq<Event>, outs: seq<Event>): seq<Session> {
    seq(|ins|, k requires 0 <= k < |ins| => LooseAt(ins, outs, k))
  }

  function LooseAt(ins: seq<Event>, outs: seq<Event>, k: nat): Session
    requires k < |ins|
  {
    var j := FirstLater(outs, 0, ins[k].at);
    Session(ins[k], if j < |outs| then Some(outs[j]) else None)
  }

  /** The export loop, matching and grouping in one pass. */
  method ExportByDay(items: seq<Event>, dateOf: int -> string) returns (groups: map<string, Session>)
    requires forall t :: dateOf(t) != ""
    ensures var sessions := Loose(OfKind(items, CheckIn), OfKind(items, CheckOut));
            groups == Report(sessions, |sessions|, dateOf) && KeepsLatest(groups, sessions, |sessions|, dateOf)
  {
    var checkIns, checkOuts := Separate(items);
    ghost var sessions := Loose(checkIns, checkOuts);
    groups := map[];
    for n := 0 to |checkIns|
      invariant groups == Report(sessions, n, dateOf)
    {
      var k := FindLater(checkOuts, checkIns[n].at);
      SearchFrom(checkOuts, 0, k, checkIns[n].at);
      assert sessions[n] == LooseAt(checkIns, checkOuts, n);
      var date := dateOf(checkIns[n].at);
      if date !in groups || checkIns[n].at > groups[date].checkIn.at {
        groups := groups[date := Session(checkIns[n], if k < |checkOuts| then Some(checkOuts[k]) else None)];
      }
    }
    ReportKeepsLatest(sessions, |sessions|, dateOf);
  }

  /** Check-in k finds check-out k, or nothing once the check-outs run out. */
  ghost predicate Aligned(ins: seq<Event>, outs: seq<Event>) {
    forall k: nat :: k < |ins| ==> FirstLater(outs, 0, ins[k].at) == if k < |outs| then k else |outs|
  }

  lemma LooseInStepIffAligned(ins: seq<Event>, outs: seq<Event>)
    requires StrictlyAscending(outs)
    ensures Loose(ins, outs) == InStep(ins, outs) <==> Aligned(ins, outs)
  {
    if Loose(ins, outs) == InStep(ins, outs) {
      forall k: nat | k < |ins| ensures FirstLater(outs, 0, ins[k].at) == if k < |outs| then k else |outs| {
        assert Loose(ins, outs)[k] == InStep(ins, outs)[k];
        var j := FirstLater(outs, 0, ins[k].at);
        if j < |outs| && k < |outs| {
          assert outs[j].at == outs[k].at;
        }
      }
    }
  }

  lemma {:induction false} FirstLaterSnoc(outs: seq<Event>, e: Event, p: nat, t: int)
    requires p <= |outs| && e.at > t
    ensures FirstLater(outs + [e], p, t) == FirstLater(outs, p, t)
    decreases |outs| - p
  {
    if p < |outs| && outs[p].at <= t {
      FirstLaterSnoc(outs, e, p + 1, t);
    }
  }

  lemma AlignedCheckIn(ins: seq<Event>, outs: seq<Event>, e: Event)
    requires |outs| <= |ins|
    requires forall o :: o in outs ==> o.at < e.at
    ensures Aligned(ins + [e], outs) <==> Aligned(ins, outs)
  {
    SearchFrom(outs, 0, |outs|, e.at);
    assert forall k: nat :: k < |ins| ==> (ins + [e])[k] == ins[k];
  }

  lemma AlignedCheckOut(ins: seq<Event>, outs: seq<Event>, e: Event)
    requires |outs| < |ins| && (|ins| == |outs| + 1 ==> Aligned(ins, outs))
    requires forall c :: c in ins ==> c.at < e.at
    ensures Aligned(ins, outs + [e]) <==> |ins| == |outs| + 1
  {
    forall k: nat | k < |ins|
      ensures FirstLater(outs + [e], 0, ins[k].at) == FirstLater(outs, 0, ins[k].at) <= |outs|
    {
      assert ins[k] in ins;
      FirstLaterSnoc(outs, e, 0, ins[k].at);
    }
    if |ins| == |outs| + 1 {
      forall k: nat | k < |ins| ensures FirstLater(outs + [e], 0, ins[k].at) == k {
        assert FirstLater(outs, 0, ins[k].at) == if k < |outs| then k else |outs|;
      }
    } else {
      assert FirstLater(outs + [e], 0, ins[|outs| + 1].at) <= |outs|;
    }
  }

  lemma {:induction false} AlignedIffNothingAbandoned(log: seq<Event>, user: nat)
    requires WellFormed(log, user)
    ensures Aligned(InsOf(log), OutsOf(log)) <==> !AbandonedBeforeCheckOut(log)
  {
    if log != [] {
      var front, e := log[..|log| - 1], log[|log| - 1];
      AlignedIffNothingAbandoned(front, user);
      AlignedStep(front, e, user);
      assert log == front + [e];
    }
  }

  lemma AlignedStep(log: seq<Event>, e: Event, user: nat)
    requires WellFormed(log, user) && Follows(log, e, user)
    requires Aligned(InsOf(log), OutsOf(log)) <==> !AbandonedBeforeCheckOut(log)
    ensures Aligned(InsOf(log + [e]), OutsOf(log + [e])) <==> !AbandonedBeforeCheckOut(log + [e])
  {
    Balance(log, user);
    AllBefore(log, e, user);
    OfKindSnoc(log, e, CheckIn);
    OfKindSnoc(log, e, CheckOut);
    AbandonedSnoc(log, e);
    if e.kind == CheckIn {
      OfKindMembers(log, CheckOut);
      AlignedCheckIn(InsOf(log), OutsOf(log), e);
      assert OutsOf(log + [e]) == OutsOf(log);
    } else {
      OfKindMembers(log, CheckIn);
      assert AbandonedBeforeCheckOut(log) ==> SomeAbandoned(log);
      AlignedCheckOut(InsOf(log), OutsOf(log), e);
      assert InsOf(log + [e]) == InsOf(log);
    }
  }

  /**
   Check-in by check-in, before the reports keep one of each date, the self export matches as the listing
   does exactly when nothing abandoned precedes a check-out.
   */
  lemma SelfExportAgreesIff(log: seq<Event>, user: nat)
    requires WellFormed(log, user)
    ensures Loose(InsOf(log), OutsOf(log)) == Sessions(InsOf(log), OutsOf(log)) <==> !AbandonedBeforeCheckOut(log)
  {
    PairingIsInStep(log, user);
    WellFormedAscends(log, user);
    OfKindStrictlyAscending(log, CheckOut);
    LooseInStepIffAligned(InsOf(log), OutsOf(log));
    AlignedIffNothingAbandoned(log, user);
  }

  /** The same list, newest first. */
  function NewestFirst<T>(es: seq<T>): seq<T> {
    seq(|es|, k requires 0 <= k < |es| => es[|es| - 1 - k])
  }

  /** In a list read newest first, the first later check-out is the newest of all, or there is none. */
  lemma NewestIsFound(outs: seq<Event>, t: int)
    requires Ascending(outs)
    ensures FirstLater(NewestFirst(outs), 0, t)
            == if outs != [] && outs[|outs| - 1].at > t then 0 else |outs|
  {
    if outs != [] && outs[|outs| - 1].at <= t {
      SearchFrom(NewestFirst(outs), 0, |outs|, t);
    }
  }

  /**
   The tenant export reads its rows newest first, so it gives a check-in the newest check-out of the
   whole range, if that is later. Check-in by check-in, before the reports keep one of each date, it
   matches as the self export does exactly on logs with at most one check-out.
   */
  lemma TenantExportAgreesIff(log: seq<Event>, user: nat)
    requires WellFormed(log, user)
    ensures var ins, outs := InsOf(log), OutsOf(log);
            (forall k: nat :: k < |ins| ==> LooseAt(ins, NewestFirst(outs), k) == LooseAt(ins, outs, k)) <==> |outs| <= 1
  {
    var ins, outs := InsOf(log), OutsOf(log);
    OutsTrailIns(log, user);
    WellFormedAscends(log, user);
    OfKindStrictlyAscending(log, CheckOut);
    forall k: nat | k < |ins|
      ensures |outs| <= 1 ==> LooseAt(ins, NewestFirst(outs), k) == LooseAt(ins, outs, k)
    {
      NewestIsFound(outs, ins[k].at);
    }
    if |outs| > 1 {
      NewestIsFound(outs, ins[0].at);
      assert FirstLater(outs, 0, ins[0].at) == 0;
      assert outs[0].at < outs[|outs| - 1].at;
      assert LooseAt(ins, NewestFirst(outs), 0) != LooseAt(ins, outs, 0);
    }
  }
}
