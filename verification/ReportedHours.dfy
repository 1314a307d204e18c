/** The hours a report shows, against the time in all sessions and against the running total. */
module ReportedHours {
  import opened Options
  import opened AttendanceEvents
  import opened AttendanceLog
  import opened SessionPairing
  import opened WorkedHours
  import opened DayReports
  import opened ReportAgreement

  ghost function SomeDate(r: map<string, Session>): (d: string)
    requires r != map[]
    ensures d in r
  {
    var d :| d in r;
    d
  }

  /** The time in the sessions of a report. */
  ghost function ReportMs(r: map<string, Session>): int
    decreases |r|
  {
    if r == map[] then 0
    else
      var d := SomeDate(r);
      SmallerWithout(r, d);
      SessionMs(r[d]) + ReportMs(r - {d})
  }

  lemma SmallerWithout(r: map<string, Session>, d: string)
    requires d in r
    ensures |r - {d}| < |r|
  {
    assert (r - {d}).Keys == r.Keys - {d};
  }

  /** Any date of the report may be counted first. */
  lemma {:induction false} ReportMsWithout(r: map<string, Session>, d: string)
    requires d in r
    ensures ReportMs(r) == SessionMs(r[d]) + ReportMs(r - {d})
    decreases |r|
  {
    var k := SomeDate(r);
    if k != d {
      SmallerWithout(r, k);
      SmallerWithout(r, d);
      ReportMsWithout(r - {k}, d);
      ReportMsWithout(r - {d}, k);
      assert r - {k} - {d} == r - {d} - {k};
    }
  }

  lemma ReportMsWith(r: map<string, Session>, d: string, s: Session)
    ensures ReportMs(r[d := s]) == ReportMs(r) - (if d in r then SessionMs(r[d]) else 0) + SessionMs(s)
  {
    ReportMsWithout(r[d := s], d);
    assert r[d := s] - {d} == r - {d};
    if d in r {
      ReportMsWithout(r, d);
    } else {
      assert r - {d} == r;
    }
  }

  /** A closed session that is not the last of its date. */
  ghost predicate Hides(sessions: seq<Session>, dateOf: int -> string, i: nat, j: nat) {
    && i < j < |sessions| && sessions[i].checkOut.Some?
    && dateOf(sessions[i].checkIn.at) == dateOf(sessions[j].checkIn.at)
  }

  /** Among the first n sessions some closed one is followed by another check-in of its date. */
  ghost predicate SomeHidden(sessions: seq<Session>, n: nat, dateOf: int -> string) {
    exists i: nat, j: nat :: j < n && Hides(sessions, dateOf, i, j)
  }

  /** Check-ins in time order, and time in every closed session. */
  ghost predicate Timed(sessions: seq<Session>) {
    && (forall i, j :: 0 <= i < j < |sessions| ==> sessions[i].checkIn.at < sessions[j].checkIn.at)
    && (forall i :: 0 <= i < |sessions| && sessions[i].checkOut.Some? ==>
                      sessions[i].checkIn.at < sessions[i].checkOut.value.at)
  }

  /** The next session replaces the one shown for its date, which is hidden then. */
  lemma Replaces(sessions: seq<Session>, n: nat, dateOf: int -> string)
    requires n < |sessions| && Timed(sessions) && Dated(dateOf)
    ensures var r, d := Report(sessions, n, dateOf), dateOf(sessions[n].checkIn.at);
            && Report(sessions, n + 1, dateOf) == r[d := sessions[n]]
            && (d in r ==> exists i: nat :: i < n && dateOf(sessions[i].checkIn.at) == d && r[d] == sessions[i]
                                             && forall k: nat :: i < k < n ==> dateOf(sessions[k].checkIn.at) != d)
            && (d !in r ==> forall i: nat :: i < n ==> dateOf(sessions[i].checkIn.at) != d)
  {
    var r, d := Report(sessions, n, dateOf), dateOf(sessions[n].checkIn.at);
    ReportKeepsLatest(sessions, n, dateOf);
    if d in r {
      var i: nat :| LatestOf(sessions, n, dateOf, d, i) && r[d] == sessions[i];
      assert sessions[i].checkIn.at < sessions[n].checkIn.at;
    }
  }

  /** One more session hides something iff the one shown for its date was closed, or something was hidden before. */
  lemma HidesIffReplacesClosed(sessions: seq<Session>, n: nat, dateOf: int -> string)
    requires n < |sessions| && Timed(sessions) && Dated(dateOf)
    ensures var r, d := Report(sessions, n, dateOf), dateOf(sessions[n].checkIn.at);
            SomeHidden(sessions, n + 1, dateOf)
            <==> SomeHidden(sessions, n, dateOf) || (d in r && r[d].checkOut.Some?)
  {
    var r, d := Report(sessions, n, dateOf), dateOf(sessions[n].checkIn.at);
    Replaces(sessions, n, dateOf);
    if d in r {
      var i: nat :| i < n && dateOf(sessions[i].checkIn.at) == d && r[d] == sessions[i]
                    && forall k: nat :: i < k < n ==> dateOf(sessions[k].checkIn.at) != d;
      if r[d].checkOut.Some? {
        assert Hides(sessions, dateOf, i, n);
      }
      if k: nat :| Hides(sessions, dateOf, k, n) {
        assert k == i || Hides(sessions, dateOf, k, i);
      }
    }
    if i: nat, j: nat :| j < n + 1 && Hides(sessions, dateOf, i, j) {
      assert j < n || Hides(sessions, dateOf, i, n);
    }
  }

  lemma TotalMsOneMore(sessions: seq<Session>, n: nat)
    requires n < |sessions|
    ensures TotalMs(sessions[..n + 1]) == TotalMs(sessions[..n]) + SessionMs(sessions[n])
  {
    assert sessions[..n + 1][..n] == sessions[..n];
  }

  lemma {:induction false} ReportWithinTotal(sessions: seq<Session>, n: nat, dateOf: int -> string)
    requires n <= |sessions| && Timed(sessions) && Dated(dateOf)
    ensures ReportMs(Report(sessions, n, dateOf)) <= TotalMs(sessions[..n])
    ensures ReportMs(Report(sessions, n, dateOf)) == TotalMs(sessions[..n]) <==> !SomeHidden(sessions, n, dateOf)
  {
    if n > 0 {
      ReportWithinTotal(sessions, n - 1, dateOf);
      var r, s := Report(sessions, n - 1, dateOf), sessions[n - 1];
      Replaces(sessions, n - 1, dateOf);
      HidesIffReplacesClosed(sessions, n - 1, dateOf);
      ReportMsWith(r, dateOf(s.checkIn.at), s);
      TotalMsOneMore(sessions, n - 1);
    }
  }

  lemma ListedIsTimed(log: seq<Event>, user: nat)
    requires WellFormed(log, user)
    ensures Timed(Listed(log))
  {
    PairingIsInStep(log, user);
    OutsTrailIns(log, user);
    WellFormedAscends(log, user);
    OfKindStrictlyAscending(log, CheckIn);
  }

  /**
   The listing reports at most the time in all sessions, and all of it iff no closed session is followed
   by another check-in of its date. When no abandoned check-in precedes a later check-out, the same
   decides whether it reports the running total.
   */
  lemma ListedHours(log: seq<Event>, user: nat, dateOf: int -> string)
    requires WellFormed(log, user) && Dated(dateOf)
    ensures var shown, sessions := ReportMs(ReportOf(Listed(log), dateOf)), Listed(log);
            && shown <= TotalMs(sessions)
            && (shown == TotalMs(sessions) <==> !SomeHidden(sessions, |sessions|, dateOf))
            && (!AbandonedBeforeCheckOut(log) ==>
                  shown <= TallyOf(log).ms && (shown == TallyOf(log).ms <==> !SomeHidden(sessions, |sessions|, dateOf)))
  {
    var sessions := Listed(log);
    ListedIsTimed(log, user);
    ReportWithinTotal(sessions, |sessions|, dateOf);
    assert sessions[..|sessions|] == sessions;
    PairingIsInStep(log, user);
    ClockLogsCompare(log, user);
  }

  const HOUR: int := 3_600_000

  /** A check-in, or a check-out, at an hour of the day. */
  function In(hour: int): Event { Event(0, CheckIn, hour * HOUR, false, Approved) }

  function Out(hour: int): Event { Event(0, CheckOut, hour * HOUR, false, NoApproval) }

  /** A day with a lunch break. */
  function Lunch(): seq<Event> { [In(9), Out(12), In(13), Out(17)] }

  lemma LunchIsWellFormed()
    ensures WellFormed(Lunch(), 0) && !SomeAbandoned(Lunch())
  {
    WellFormedSnoc([], In(9), 0);
    WellFormedSnoc([In(9)], Out(12), 0);
    WellFormedSnoc([In(9), Out(12)], In(13), 0);
    WellFormedSnoc([In(9), Out(12), In(13)], Out(17), 0);
    assert [] + [In(9)] == [In(9)] && [In(9)] + [Out(12)] == [In(9), Out(12)];
    assert [In(9), Out(12)] + [In(13)] == [In(9), Out(12), In(13)];
    assert [In(9), Out(12), In(13)] + [Out(17)] == Lunch();
  }

  lemma LunchSessions()
    ensures Listed(Lunch()) == [Session(In(9), Some(Out(12))), Session(In(13), Some(Out(17)))]
  {
    LunchIsWellFormed();
    PairingIsInStep(Lunch(), 0);
    assert Lunch() == [In(9), Out(12)] + [In(13), Out(17)];
    forall kind | kind == CheckIn || kind == CheckOut
      ensures OfKind(Lunch(), kind) == if kind == CheckIn then [In(9), In(13)] else [Out(12), Out(17)]
    {
      OfKindSum([In(9), Out(12)], [In(13), Out(17)], kind);
      assert [In(9), Out(12)][..1] == [In(9)] && [In(13), Out(17)][..1] == [In(13)];
    }
  }

  /** Nothing is abandoned, yet of the seven hours worked the listing does not report all. */
  lemma LunchHidesTheMorning()
    ensures WellFormed(Lunch(), 0) && !AbandonedBeforeCheckOut(Lunch())
    ensures ReportMs(ReportOf(Listed(Lunch()), t => "today")) < TallyOf(Lunch()).ms
  {
    LunchIsWellFormed();
    LunchSessions();
    ListedHours(Lunch(), 0, t => "today");
    assert Hides(Listed(Lunch()), t => "today", 0, 1);
  }
}
