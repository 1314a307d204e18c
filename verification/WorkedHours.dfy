/**
 Two readings of the same log compared: the greedy pairing behind the listings, and the running total
 that measures each check-out against the last open check-in. On every reachable log the pairing is
 "k-th check-in with k-th check-out", and the two totals agree exactly when no abandoned check-in
 precedes a later check-out.
 */
module WorkedHours {
  import opened Options
  import opened AttendanceEvents
  import opened AttendanceLog
  import opened SessionPairing
  import opened StableSort

  function Hours(ms: int): real { ms as real / 3_600_000.0 }

  /** Rounding to two decimals: scale, round half up, scale back. */
  function Round2(x: real): real {
    (x * 100.0 + 0.5).Floor as real / 100.0
  }

  predicate IsHundredths(x: real, c: int) { x == c as real / 100.0 }

  /** The result is a whole number of hundredths, the nearest one, and the upper of two that are as near. */
  lemma RoundsHalfUp(x: real)
    ensures exists c: int :: IsHundredths(Round2(x), c)
    ensures -0.005 < Round2(x) - x <= 0.005
  {
    var c := (x * 100.0 + 0.5).Floor;
    assert IsHundredths(Round2(x), c);
    assert c as real <= x * 100.0 + 0.5 < c as real + 1.0;
  }

  /** The running total and the check-in it is waiting to close. */
  datatype Tally = Tally(ms: int, open: Option<int>)

  function Count(t: Tally, e: Event): Tally {
    if e.kind == CheckIn then Tally(t.ms, Some(e.at))
    else if e.kind == CheckOut && t.open.Some? then Tally(t.ms + (e.at - t.open.value), None)
    else t
  }

  function TallyOf(es: seq<Event>): Tally {
    if es == [] then Tally(0, None) else Count(TallyOf(es[..|es| - 1]), es[|es| - 1])
  }

  predicate IsClock(e: Event) { e.kind == CheckIn || e.kind == CheckOut }

  /** The last check-in or check-out among the first n rows. */
  function LastClock(es: seq<Event>, n: nat): (r: Option<nat>)
    requires n <= |es|
    ensures r.Some? ==> r.value < n && IsClock(es[r.value]) && forall k :: r.value < k < n ==> !IsClock(es[k])
    ensures r.None? ==> forall k :: 0 <= k < n ==> !IsClock(es[k])
  {
    if n == 0 then None else if IsClock(es[n - 1]) then Some(n - 1) else LastClock(es, n - 1)
  }

  /** The time between a check-out and the clock row before it, if that is a check-in. */
  function ClosedAt(es: seq<Event>, j: nat): int
    requires j < |es|
  {
    var i := LastClock(es, j);
    if es[j].kind == CheckOut && i.Some? && es[i.value].kind == CheckIn then es[j].at - es[i.value].at else 0
  }

  function SumClosed(es: seq<Event>, n: nat): int
    requires n <= |es|
  {
    if n == 0 then 0 else SumClosed(es, n - 1) + ClosedAt(es, n - 1)
  }

  /** On any list the running total is the time from each check-in that a check-out directly follows, breaks aside, to that check-out. */
  lemma {:induction false} TallyIsAdjacent(es: seq<Event>, n: nat)
    requires n <= |es|
    ensures TallyOf(es[..n]).ms == SumClosed(es, n)
    ensures TallyOf(es[..n]).open
            == var i := LastClock(es, n); if i.Some? && es[i.value].kind == CheckIn then Some(es[i.value].at) else None
  {
    if n > 0 {
      TallyIsAdjacent(es, n - 1);
      assert es[..n][..n - 1] == es[..n - 1];
    }
  }

  lemma TallySnoc(es: seq<Event>, e: Event)
    ensures TallyOf(es + [e]) == Count(TallyOf(es), e)
  {
    assert (es + [e])[..|es|] == es;
  }

  lemma HoursAdd(a: int, b: int)
    ensures Hours(a + b) == Hours(a) + Hours(b)
  {
  }

  /** The total of the working hours; the caller's list comes back sorted by time. */
  method CalculateTotalWorkHours(items: seq<Event>) returns (hours: real, sorted: seq<Event>)
    ensures sorted == SortBy(items, AtOf)
    ensures hours == Round2(Hours(TallyOf(sorted).ms))
    ensures exists c: int :: IsHundredths(hours, c)
    ensures -0.005 < hours - TallyOf(sorted).ms as real / 3_600_000.0 <= 0.005
  {
    sorted := SortBy(items, AtOf);
    var lastCheckIn: Option<Event> := None;
    var totalHours := 0.0;
    ghost var tally := Tally(0, None);
    for n := 0 to |sorted|
      invariant tally == TallyOf(sorted[..n])
      invariant totalHours == Hours(tally.ms)
      invariant tally.open.Some? == lastCheckIn.Some?
      invariant lastCheckIn.Some? ==> tally.open.value == lastCheckIn.value.at
    {
      var event := sorted[n];
      TallySnoc(sorted[..n], event);
      assert sorted[..n + 1] == sorted[..n] + [event];
      if event.kind == CheckIn {
        lastCheckIn := Some(event);
      } else if event.kind == CheckOut && lastCheckIn.Some? {
        var diffMs := event.at - lastCheckIn.value.at;
        HoursAdd(tally.ms, diffMs);
        totalHours := totalHours + Hours(diffMs);
        lastCheckIn := None;
      }
      tally := Count(tally, event);
    }
    assert sorted[..|sorted|] == sorted;
    hours := Round2(totalHours);
    RoundsHalfUp(totalHours);
  }

  function AtOf(e: Event): int { e.at }

  /** Time in the sessions that were closed. */
  function SessionMs(s: Session): int {
    if s.checkOut.Some? then s.checkOut.value.at - s.checkIn.at else 0
  }

  function TotalMs(sessions: seq<Session>): int {
    if sessions == [] then 0
    else TotalMs(sessions[..|sessions| - 1]) + SessionMs(sessions[|sessions| - 1])
  }

  /** The k-th check-in with the k-th check-out, as far as there are check-outs. */
  function InStep(ins: seq<Event>, outs: seq<Event>): seq<Session> {
    seq(|ins|, k requires 0 <= k < |ins| => Session(ins[k], if k < |outs| then Some(outs[k]) else None))
  }

  function InsOf(log: seq<Event>): seq<Event> { OfKind(log, CheckIn) }
  function OutsOf(log: seq<Event>): seq<Event> { OfKind(log, CheckOut) }

  /** A check-in that the next clock row, another check-in, leaves without a check-out. */
  ghost predicate AbandonedAt(log: seq<Event>, i: nat) {
    i + 1 < |log| && log[i].kind == CheckIn && log[i + 1].kind == CheckIn
  }

  ghost predicate SomeAbandoned(log: seq<Event>) {
    exists i: nat :: AbandonedAt(log, i)
  }

  ghost predicate AbandonedBeforeCheckOut(log: seq<Event>) {
    exists i: nat, j: nat :: AbandonedAt(log, i) && i < j < |log| && log[j].kind == CheckOut
  }

  lemma AbandonedSnoc(log: seq<Event>, e: Event)
    ensures SomeAbandoned(log + [e])
            <==> SomeAbandoned(log) || (e.kind == CheckIn && log != [] && log[|log| - 1].kind == CheckIn)
    ensures AbandonedBeforeCheckOut(log + [e])
            <==> AbandonedBeforeCheckOut(log) || (e.kind == CheckOut && SomeAbandoned(log))
  {
    var next := log + [e];
    assert forall i: nat :: i + 1 < |log| ==> AbandonedAt(next, i) == AbandonedAt(log, i);
    if AbandonedBeforeCheckOut(log) {
      var i: nat, j: nat :| AbandonedAt(log, i) && i < j < |log| && log[j].kind == CheckOut;
      assert AbandonedAt(next, i) && next[j].kind == CheckOut;
    }
    if SomeAbandoned(log) {
      var i: nat :| AbandonedAt(log, i);
      assert AbandonedAt(next, i) && next[|log|] == e;
    }
    if e.kind == CheckIn && log != [] && log[|log| - 1].kind == CheckIn {
      assert AbandonedAt(next, |log| - 1);
    }
    if AbandonedBeforeCheckOut(next) {
      var i: nat, j: nat :| AbandonedAt(next, i) && i < j < |next| && next[j].kind == CheckOut;
      assert AbandonedAt(log, i);
    }
  }

  /** Whether the log ends with a check-in still open. */
  function Pending(log: seq<Event>): nat {
    if log != [] && log[|log| - 1].kind == CheckIn then 1 else 0
  }

  /** Check-ins are the check-outs, the open one and the abandoned ones. */
  lemma {:induction false} Balance(log: seq<Event>, user: nat)
    requires WellFormed(log, user)
    ensures |InsOf(log)| >= |OutsOf(log)| + Pending(log)
    ensures |InsOf(log)| == |OutsOf(log)| + Pending(log) <==> !SomeAbandoned(log)
    ensures Pending(log) == 1 ==> InsOf(log)[|InsOf(log)| - 1] == log[|log| - 1]
  {
    if log != [] {
      var front, e := log[..|log| - 1], log[|log| - 1];
      Balance(front, user);
      assert log == front + [e];
      AbandonedSnoc(front, e);
    }
  }

  /** The k-th check-out comes after the k-th check-in. */
  lemma {:induction false} OutsTrailIns(log: seq<Event>, user: nat)
    requires WellFormed(log, user)
    ensures |OutsOf(log)| <= |InsOf(log)|
    ensures forall k :: 0 <= k < |OutsOf(log)| ==> InsOf(log)[k].at < OutsOf(log)[k].at
  {
    if log != [] {
      var front, e := log[..|log| - 1], log[|log| - 1];
      OutsTrailIns(front, user);
      Balance(log, user);
      Balance(front, user);
      AllBefore(front, e, user);
      OfKindMembers(front, CheckIn);
      if e.kind == CheckOut {
        assert InsOf(front)[|OutsOf(front)|] in InsOf(front);
      }
    }
  }

  lemma {:induction false} ScanInStep(ins: seq<Event>, outs: seq<Event>, k: nat)
    requires |outs| <= |ins| && k <= |ins|
    requires forall i :: 0 <= i < |outs| ==> ins[i].at < outs[i].at
    ensures var m := Scan(ins, outs, k, if k < |outs| then k else |outs|);
            forall i: nat :: (i in m <==> k <= i < |outs|) && (i in m ==> m[i] == i)
    decreases |ins| - k
  {
    if k < |ins| {
      ScanInStep(ins, outs, k + 1);
    }
  }

  /** On a clock log the greedy pairing puts the k-th check-in with the k-th check-out. */
  lemma PairingIsInStep(log: seq<Event>, user: nat)
    requires WellFormed(log, user)
    ensures Sessions(InsOf(log), OutsOf(log)) == InStep(InsOf(log), OutsOf(log))
  {
    OutsTrailIns(log, user);
    ScanInStep(InsOf(log), OutsOf(log), 0);
  }

  lemma {:induction false} TotalMsUpdate(sessions: seq<Session>, i: nat, s: Session)
    requires i < |sessions|
    ensures TotalMs(sessions[i := s]) == TotalMs(sessions) - SessionMs(sessions[i]) + SessionMs(s)
  {
    var n := |sessions| - 1;
    if i == n {
      assert sessions[i := s][..n] == sessions[..n];
    } else {
      assert sessions[i := s][..n] == sessions[..n][i := s];
      TotalMsUpdate(sessions[..n], i, s);
    }
  }

  /** One more clock row, seen by the in-step pairing. */
  lemma InStepSnoc(ins: seq<Event>, outs: seq<Event>, e: Event)
    requires |outs| <= |ins|
    ensures TotalMs(InStep(ins + [e], outs)) == TotalMs(InStep(ins, outs))
    ensures |outs| < |ins| ==>
              TotalMs(InStep(ins, outs + [e])) == TotalMs(InStep(ins, outs)) + e.at - ins[|outs|].at
  {
    assert InStep(ins + [e], outs)[..|ins|] == InStep(ins, outs);
    if |outs| < |ins| {
      assert InStep(ins, outs + [e]) == InStep(ins, outs)[|outs| := Session(ins[|outs|], Some(e))];
      TotalMsUpdate(InStep(ins, outs), |outs|, Session(ins[|outs|], Some(e)));
    }
  }

  /** How the two readings of a log compare. */
  ghost predicate Compared(log: seq<Event>) {
    var sessions, tally := TotalMs(InStep(InsOf(log), OutsOf(log))), TallyOf(log);
    && sessions >= tally.ms
    && (sessions == tally.ms <==> !AbandonedBeforeCheckOut(log))
    && (Pending(log) == 1 ==> tally.open == Some(log[|log| - 1].at))
  }

  lemma CheckInKeepsCompared(log: seq<Event>, e: Event, user: nat)
    requires WellFormed(log, user) && Compared(log) && e.kind == CheckIn
    ensures Compared(log + [e])
  {
    OutsTrailIns(log, user);
    OfKindSnoc(log, e, CheckIn);
    OfKindSnoc(log, e, CheckOut);
    AbandonedSnoc(log, e);
    InStepSnoc(InsOf(log), OutsOf(log), e);
    TallySnoc(log, e);
    assert OutsOf(log + [e]) == OutsOf(log);
  }

  /** The check-out is charged to check-in |outs| by the pairing and to the last check-in by the tally. */
  lemma CheckOutKeepsCompared(log: seq<Event>, e: Event, user: nat)
    requires WellFormed(log, user) && Compared(log) && e.kind == CheckOut && Pending(log) == 1
    ensures Compared(log + [e])
  {
    var ins, outs := InsOf(log), OutsOf(log);
    Balance(log, user);
    OfKindSnoc(log, e, CheckIn);
    OfKindSnoc(log, e, CheckOut);
    AbandonedSnoc(log, e);
    InStepSnoc(ins, outs, e);
    TallySnoc(log, e);
    assert InsOf(log + [e]) == ins;
    WellFormedAscends(log, user);
    OfKindStrictlyAscending(log, CheckIn);
    assert |outs| < |ins| - 1 ==> ins[|outs|].at < ins[|ins| - 1].at;
    assert AbandonedBeforeCheckOut(log) ==> SomeAbandoned(log);
  }

  lemma {:induction false} ClockLogsCompare(log: seq<Event>, user: nat)
    requires WellFormed(log, user)
    ensures Compared(log)
  {
    if log != [] {
      var front, e := log[..|log| - 1], log[|log| - 1];
      ClockLogsCompare(front, user);
      assert log == front + [e];
      if e.kind == CheckIn {
        CheckInKeepsCompared(front, e, user);
      } else {
        CheckOutKeepsCompared(front, e, user);
      }
    } else {
      assert InStep(InsOf(log), OutsOf(log)) == [];
    }
  }

  ghost predicate SameReadings(a: seq<Event>, b: seq<Event>) {
    InsOf(a) == InsOf(b) && OutsOf(a) == OutsOf(b) && TallyOf(a) == TallyOf(b)
  }

  lemma SameReadingsSnoc(a: seq<Event>, b: seq<Event>, e: Event)
    requires SameReadings(a, b)
    ensures SameReadings(a + [e], if e.kind == CheckIn || e.kind == CheckOut then b + [e] else b)
  {
    OfKindSnoc(a, e, CheckIn);
    OfKindSnoc(a, e, CheckOut);
    TallySnoc(a, e);
    OfKindSnoc(b, e, CheckIn);
    OfKindSnoc(b, e, CheckOut);
    TallySnoc(b, e);
  }

  /** Both readings only look at the clock rows among all rows of the user. */
  lemma {:induction false} ReadingsSkipBreaks(rows: seq<Event>, user: nat)
    ensures SameReadings(RowsOf(rows, user), ClockOf(rows, user))
  {
    if rows != [] {
      var front, e := rows[..|rows| - 1], rows[|rows| - 1];
      ReadingsSkipBreaks(front, user);
      SameReadingsSnoc(RowsOf(front, user), ClockOf(front, user), e);
      assert RowsOf(front, user) + [] == RowsOf(front, user);
      assert ClockOf(front, user) + [] == ClockOf(front, user);
    }
  }

  lemma {:induction false} RunRowsAscend(reqs: seq<Request>, user: nat)
    requires ClockGrows(reqs)
    ensures StrictlyAscending(RowsOf(Run(reqs), user))
  {
    if reqs != [] {
      var front, req := reqs[..|reqs| - 1], reqs[|reqs| - 1];
      RunRowsAscend(front, user);
      RunStaysBefore(front, req.now);
      RowsOfMembers(Run(front), user);
      var r := Decide(Run(front), req);
      if r.Saved? {
        assert (Run(front) + [r.event])[..|Run(front)|] == Run(front);
      }
    }
  }

  /**
   On the rows of any run, for any user: the listing pairs the k-th check-in with the k-th check-out;
   the time in those sessions is at least the running total of the events view, which gets the rows
   newest first and sorts them; and the two are equal exactly when no abandoned check-in precedes a
   later check-out.
   */
  lemma ReadingsOfARun(reqs: seq<Request>, user: nat, newestFirst: seq<Event>)
    requires ClockGrows(reqs)
    requires multiset(newestFirst) == multiset(RowsOf(Run(reqs), user))
    ensures var mine, log := RowsOf(Run(reqs), user), ClockOf(Run(reqs), user);
            var sessions := Sessions(InsOf(mine), OutsOf(mine));
            var tally := TallyOf(SortBy(newestFirst, AtOf)).ms;
            && Ascending(mine)
            && sessions == InStep(InsOf(log), OutsOf(log))
            && TotalMs(sessions) >= tally
            && (TotalMs(sessions) == tally <==> !AbandonedBeforeCheckOut(log))
  {
    var rows := Run(reqs);
    RunRowsAscend(reqs, user);
    SortedIsUnique(SortBy(newestFirst, AtOf), RowsOf(rows, user), AtOf);
    ReadingsSkipBreaks(rows, user);
    ReachableLogsAreWellFormed(reqs, user);
    PairingIsInStep(ClockOf(rows, user), user);
    ClockLogsCompare(ClockOf(rows, user), user);
  }
}
