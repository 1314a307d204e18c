/**
 Reports over a date range. The range cuts a window out of the log, which may start with the check-out of
 a session that began earlier; every reading ignores that row, so what holds of whole logs holds of
 windows. The theorems about runs are put together here.
 */
module LogWindows {
  import opened AttendanceEvents
  import opened AttendanceLog
  import opened SessionPairing
  import opened StableSort
  import opened WorkedHours
  import opened DayReports
  import opened ReportAgreement
  import opened ReportedHours
  import opened DateBounds

  /** The rows that pass the filter of a date range. */
  function InWindow(es: seq<Event>, b: Bounds): seq<Event> {
    if es == [] then []
    else
      var last := es[|es| - 1];
      InWindow(es[..|es| - 1], b) + if Passes(b, last.at) then [last] else []
  }

  lemma InWindowSnoc(es: seq<Event>, e: Event, b: Bounds)
    ensures InWindow(es + [e], b) == InWindow(es, b) + if Passes(b, e.at) then [e] else []
  {
    assert (es + [e])[..|es|] == es;
  }

  lemma {:induction false} InWindowMembers(es: seq<Event>, b: Bounds)
    ensures forall e :: e in InWindow(es, b) <==> e in es && Passes(b, e.at)
  {
    if es != [] {
      InWindowMembers(es[..|es| - 1], b);
      assert es == es[..|es| - 1] + [es[|es| - 1]];
    }
  }

  lemma ClockSnocInWindow(front: seq<Event>, e: Event, user: nat, b: Bounds)
    requires ClockOf(InWindow(front, b), user) == InWindow(ClockOf(front, user), b)
    ensures ClockOf(InWindow(front + [e], b), user) == InWindow(ClockOf(front + [e], user), b)
  {
    InWindowSnoc(front, e, b);
    ClockOfSnoc(front, e, user);
    if Passes(b, e.at) {
      ClockOfSnoc(InWindow(front, b), e, user);
    } else {
      assert InWindow(front, b) + [] == InWindow(front, b);
    }
    if e.user == user && (e.kind == CheckIn || e.kind == CheckOut) {
      InWindowSnoc(ClockOf(front, user), e, b);
    } else {
      assert ClockOf(front, user) + [] == ClockOf(front, user);
    }
  }

  lemma {:induction false} WindowOfClock(rows: seq<Event>, user: nat, b: Bounds)
    ensures ClockOf(InWindow(rows, b), user) == InWindow(ClockOf(rows, user), b)
  {
    if rows != [] {
      WindowOfClock(rows[..|rows| - 1], user, b);
      ClockSnocInWindow(rows[..|rows| - 1], rows[|rows| - 1], user, b);
      assert rows == rows[..|rows| - 1] + [rows[|rows| - 1]];
    }
  }

  lemma RowsSnoc(es: seq<Event>, e: Event, user: nat)
    ensures RowsOf(es + [e], user) == RowsOf(es, user) + if e.user == user then [e] else []
  {
    assert (es + [e])[..|es|] == es;
  }

  lemma RowsSnocInWindow(front: seq<Event>, e: Event, user: nat, b: Bounds)
    requires RowsOf(InWindow(front, b), user) == InWindow(RowsOf(front, user), b)
    ensures RowsOf(InWindow(front + [e], b), user) == InWindow(RowsOf(front + [e], user), b)
  {
    InWindowSnoc(front, e, b);
    RowsSnoc(front, e, user);
    if Passes(b, e.at) {
      RowsSnoc(InWindow(front, b), e, user);
    } else {
      assert InWindow(front, b) + [] == InWindow(front, b);
    }
    if e.user == user {
      InWindowSnoc(RowsOf(front, user), e, b);
    } else {
      assert RowsOf(front, user) + [] == RowsOf(front, user);
    }
  }

  lemma {:induction false} WindowOfRows(rows: seq<Event>, user: nat, b: Bounds)
    ensures RowsOf(InWindow(rows, b), user) == InWindow(RowsOf(rows, user), b)
  {
    if rows != [] {
      WindowOfRows(rows[..|rows| - 1], user, b);
      RowsSnocInWindow(rows[..|rows| - 1], rows[|rows| - 1], user, b);
      assert rows == rows[..|rows| - 1] + [rows[|rows| - 1]];
    }
  }

  lemma PrefixAscends(es: seq<Event>, n: nat)
    requires StrictlyAscending(es) && n <= |es|
    ensures StrictlyAscending(es[..n])
  {
  }

  lemma LastIsLater(es: seq<Event>, e: Event)
    requires StrictlyAscending(es + [e])
    ensures forall x :: x in es ==> x.at < e.at
  {
    forall x | x in es ensures x.at < e.at {
      var i :| 0 <= i < |es| && es[i] == x;
      assert (es + [e])[i].at < (es + [e])[|es|].at;
    }
  }

  lemma AscendsWith(es: seq<Event>, e: Event)
    requires StrictlyAscending(es) && forall x :: x in es ==> x.at < e.at
    ensures StrictlyAscending(es + [e])
  {
  }

  lemma {:induction false} StrictWindow(es: seq<Event>, b: Bounds)
    requires StrictlyAscending(es)
    ensures StrictlyAscending(InWindow(es, b))
  {
    if es != [] {
      var front, e := es[..|es| - 1], es[|es| - 1];
      PrefixAscends(es, |front|);
      StrictWindow(front, b);
      if Passes(b, e.at) {
        assert es == front + [e];
        LastIsLater(front, e);
        InWindowMembers(front, b);
        AscendsWith(InWindow(front, b), e);
      }
    }
  }

  /** A window without the check-out it may start with. */
  function Body(w: seq<Event>): seq<Event> {
    if w != [] && w[0].kind == CheckOut then w[1..] else w
  }

  /** While later rows pass, a window ends where its log does. */
  lemma WindowEnds(log: seq<Event>, e: Event, user: nat, b: Bounds)
    requires WellFormed(log, user) && Follows(log, e, user) && Passes(b, e.at) && InWindow(log, b) != []
    ensures log != [] && InWindow(log, b)[|InWindow(log, b)| - 1] == log[|log| - 1]
  {
    InWindowMembers(log, b);
    assert InWindow(log, b)[0] in log;
    WellFormedAscends(log, user);
    AllBefore(log, e, user);
    assert InWindow(log, b)[0].at <= log[|log| - 1].at < e.at;
  }

  lemma BodyGrows(w: seq<Event>, log: seq<Event>, e: Event, user: nat)
    requires WellFormed(Body(w), user) && Follows(log, e, user)
    requires w != [] ==> log != [] && w[|w| - 1] == log[|log| - 1]
    ensures WellFormed(Body(w + [e]), user)
  {
    if w != [] {
      assert Body(w + [e]) == Body(w) + [e];
      WellFormedSnoc(Body(w), e, user);
    } else {
      WellFormedSnoc([], e, user);
      assert [] + [e] == [e];
    }
  }

  /** What a date range leaves of a reachable log is, but for a leading check-out, a reachable log. */
  lemma {:induction false} WindowBody(log: seq<Event>, user: nat, b: Bounds)
    requires WellFormed(log, user)
    ensures WellFormed(Body(InWindow(log, b)), user)
  {
    if log != [] {
      var front, e := log[..|log| - 1], log[|log| - 1];
      WindowBody(front, user, b);
      if Passes(b, e.at) {
        if InWindow(front, b) != [] {
          WindowEnds(front, e, user, b);
        }
        BodyGrows(InWindow(front, b), front, e, user);
      } else {
        assert InWindow(log, b) == InWindow(front, b);
      }
    }
  }

  lemma {:induction false} TallySkipsOut(o: Event, es: seq<Event>)
    requires o.kind == CheckOut
    ensures TallyOf([o] + es) == TallyOf(es)
  {
    if es == [] {
      assert [o] + es == [] + [o];
      TallySnoc([], o);
    } else {
      var front, e := es[..|es| - 1], es[|es| - 1];
      TallySkipsOut(o, front);
      TallySnoc([o] + front, e);
      assert [o] + es == ([o] + front) + [e];
    }
  }

  lemma {:induction false} FirstLaterSkips(o: Event, outs: seq<Event>, p: nat, t: int)
    requires p <= |outs|
    ensures FirstLater([o] + outs, p + 1, t) == FirstLater(outs, p, t) + 1
    decreases |outs| - p
  {
    if p < |outs| && outs[p].at <= t {
      FirstLaterSkips(o, outs, p + 1, t);
    }
  }

  lemma FirstLaterSkipsEarlier(o: Event, outs: seq<Event>, t: int)
    requires o.at <= t
    ensures FirstLater([o] + outs, 0, t) == FirstLater(outs, 0, t) + 1
  {
    SearchFrom([o] + outs, 0, 1, t);
    FirstLaterSkips(o, outs, 0, t);
  }

  /** The pairing over one more check-out, already passed, finds the same check-outs. */
  lemma {:induction false} ScanSkips(ins: seq<Event>, o: Event, outs: seq<Event>, i: nat, p: nat, k: nat)
    requires i <= |ins| && p <= |outs| && k < |ins|
    ensures SessionAt(ins, [o] + outs, Scan(ins, [o] + outs, i, p + 1), k) == SessionAt(ins, outs, Scan(ins, outs, i, p), k)
    decreases |ins| - i
  {
    if i < |ins| {
      var j := FirstLater(outs, p, ins[i].at);
      FirstLaterSkips(o, outs, p, ins[i].at);
      ScanSkips(ins, o, outs, i + 1, if j < |outs| then j + 1 else j, k);
    }
  }

  lemma SessionsSkipOut(ins: seq<Event>, o: Event, outs: seq<Event>)
    requires forall i :: 0 <= i < |ins| ==> o.at <= ins[i].at
    ensures Sessions(ins, [o] + outs) == Sessions(ins, outs)
    ensures Loose(ins, [o] + outs) == Loose(ins, outs)
  {
    forall k: nat | k < |ins| ensures Sessions(ins, [o] + outs)[k] == Sessions(ins, outs)[k] {
      SearchFrom([o] + outs, 0, 1, ins[0].at);
      assert Scan(ins, [o] + outs, 0, 0) == Scan(ins, [o] + outs, 0, 1);
      ScanSkips(ins, o, outs, 0, 0, k);
    }
    forall k: nat | k < |ins| ensures Loose(ins, [o] + outs)[k] == Loose(ins, outs)[k] {
      FirstLaterSkipsEarlier(o, outs, ins[k].at);
    }
  }

  lemma TenantSkipsOut(ins: seq<Event>, o: Event, outs: seq<Event>)
    requires forall i :: 0 <= i < |ins| ==> o.at <= ins[i].at
    requires Ascending([o] + outs)
    ensures TenantMatches(ins, [o] + outs) == TenantMatches(ins, outs)
  {
    var all := [o] + outs;
    forall i, j | 0 <= i < j < |outs| ensures outs[i].at <= outs[j].at {
      assert outs[i] == all[i + 1] && outs[j] == all[j + 1];
    }
    forall k: nat | k < |ins| ensures TenantMatches(ins, all)[k] == TenantMatches(ins, outs)[k] {
      NewestIsFound(all, ins[k].at);
      NewestIsFound(outs, ins[k].at);
    }
  }

  /** The readings of two lists of rows are the same, all of them. */
  ghost predicate ReadAlike(a: seq<Event>, b: seq<Event>) {
    TallyOf(a) == TallyOf(b) && Listed(a) == Listed(b) && SelfExported(a) == SelfExported(b)
    && TenantExported(a) == TenantExported(b)
  }

  lemma SameReadingsReadAlike(a: seq<Event>, b: seq<Event>)
    requires SameReadings(a, b)
    ensures ReadAlike(a, b)
  {
    TenantInLogOrder(a);
    TenantInLogOrder(b);
  }

  /** A leading check-out is never matched and never counted. */
  lemma BodyReadsAlike(w: seq<Event>)
    requires StrictlyAscending(w)
    ensures ReadAlike(w, Body(w))
  {
    if Body(w) != w {
      var o, rest := w[0], w[1..];
      assert w == [o] + rest;
      TallySkipsOut(o, rest);
      OfKindSum([o], rest, CheckIn);
      OfKindSum([o], rest, CheckOut);
      OfKindSnoc([], o, CheckIn);
      OfKindSnoc([], o, CheckOut);
      assert [] + [o] == [o];
      assert [] + InsOf(rest) == InsOf(rest);
      OfKindMembers(rest, CheckIn);
      forall i | 0 <= i < |InsOf(rest)| ensures o.at <= InsOf(rest)[i].at {
        assert InsOf(rest)[i] in rest;
      }
      OfKindStrictlyAscending(w, CheckOut);
      SessionsSkipOut(InsOf(rest), o, OutsOf(rest));
      TenantSkipsOut(InsOf(rest), o, OutsOf(rest));
      TenantInLogOrder(w);
      TenantInLogOrder(rest);
    }
  }

  /** What the queries of a run give for a user and a date range, in time order. */
  function RowsIn(reqs: seq<Request>, user: nat, b: Bounds): seq<Event> {
    RowsOf(InWindow(Run(reqs), b), user)
  }

  /** The clock log behind them: their check-ins and check-outs, without a leading check-out. */
  function LogIn(reqs: seq<Request>, user: nat, b: Bounds): seq<Event> {
    Body(ClockOf(InWindow(Run(reqs), b), user))
  }

  /** The rows of any range read like a reachable log. */
  lemma RangeReadsLikeALog(reqs: seq<Request>, user: nat, b: Bounds)
    requires ClockGrows(reqs)
    ensures WellFormed(LogIn(reqs, user, b), user)
    ensures StrictlyAscending(RowsIn(reqs, user, b)) && ReadAlike(RowsIn(reqs, user, b), LogIn(reqs, user, b))
  {
    var rows := Run(reqs);
    ReachableLogsAreWellFormed(reqs, user);
    WindowOfClock(rows, user, b);
    WindowBody(ClockOf(rows, user), user, b);
    RunRowsAscend(reqs, user);
    WindowOfRows(rows, user, b);
    StrictWindow(RowsOf(rows, user), b);
    ReadingsSkipBreaks(InWindow(rows, b), user);
    SameReadingsReadAlike(RowsIn(reqs, user, b), ClockOf(InWindow(rows, b), user));
    WellFormedAscends(ClockOf(rows, user), user);
    StrictWindow(ClockOf(rows, user), b);
    BodyReadsAlike(ClockOf(InWindow(rows, b), user));
  }

  /**
   For every run, user and date range: the time in all sessions of the listing is at least the running
   total of the events view, which gets the rows newest first and sorts them, with equality iff no
   abandoned check-in of the range precedes a later check-out of it.
   */
  lemma SessionsAgainstTotal(reqs: seq<Request>, user: nat, b: Bounds, newestFirst: seq<Event>)
    requires ClockGrows(reqs) && multiset(newestFirst) == multiset(RowsIn(reqs, user, b))
    ensures var sessions, log := Listed(RowsIn(reqs, user, b)), LogIn(reqs, user, b);
            var total := TallyOf(SortBy(newestFirst, AtOf)).ms;
            && sessions == InStep(InsOf(log), OutsOf(log))
            && TotalMs(sessions) >= total
            && (TotalMs(sessions) == total <==> !AbandonedBeforeCheckOut(log))
  {
    RangeReadsLikeALog(reqs, user, b);
    SortedIsUnique(SortBy(newestFirst, AtOf), RowsIn(reqs, user, b), AtOf);
    PairingIsInStep(LogIn(reqs, user, b), user);
    ClockLogsCompare(LogIn(reqs, user, b), user);
  }

  /**
   For every run, user and date range, what the listing reports, one session per date: never more than
   the time in all sessions, and all of it iff no closed session is followed by another check-in of its
   date. If no abandoned check-in precedes a later check-out, the same decides whether it reports the
   running total.
   */
  lemma ReportAgainstTotal(reqs: seq<Request>, user: nat, b: Bounds, dateOf: int -> string, newestFirst: seq<Event>)
    requires ClockGrows(reqs) && Dated(dateOf) && multiset(newestFirst) == multiset(RowsIn(reqs, user, b))
    ensures var sessions, log := Listed(RowsIn(reqs, user, b)), LogIn(reqs, user, b);
            var shown, total := ReportMs(ReportOf(sessions, dateOf)), TallyOf(SortBy(newestFirst, AtOf)).ms;
            && shown <= TotalMs(sessions)
            && (shown == TotalMs(sessions) <==> !SomeHidden(sessions, |sessions|, dateOf))
            && (!AbandonedBeforeCheckOut(log) ==>
                  shown <= total && (shown == total <==> !SomeHidden(sessions, |sessions|, dateOf)))
  {
    RangeReadsLikeALog(reqs, user, b);
    SortedIsUnique(SortBy(newestFirst, AtOf), RowsIn(reqs, user, b), AtOf);
    ListedHours(LogIn(reqs, user, b), user, dateOf);
  }

  /** For every run, user and date range, exactly when the exports and the listing report the same. */
  lemma ExportsAgainstListing(reqs: seq<Request>, user: nat, b: Bounds, dateOf: int -> string)
    requires ClockGrows(reqs) && Dated(dateOf)
    ensures var rows, log := RowsIn(reqs, user, b), LogIn(reqs, user, b);
            && (ReportOf(SelfExported(rows), dateOf) == ReportOf(Listed(rows), dateOf)
                <==> forall q: nat :: LatestAt(log, dateOf, q) ==> !AbandonedBefore(log, q) || !OutAfter(log, q))
            && (ReportOf(TenantExported(rows), dateOf) == ReportOf(SelfExported(rows), dateOf)
                <==> forall q: nat :: LatestAt(log, dateOf, q) ==> !TwoOutsAfter(log, q))
  {
    RangeReadsLikeALog(reqs, user, b);
    SelfReportAgreesIff(LogIn(reqs, user, b), user, dateOf);
    TenantReportAgreesIff(LogIn(reqs, user, b), user, dateOf);
  }
}
