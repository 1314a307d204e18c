/**
 Which attendance logs can exist: the check-in / check-out state machine of one table shared by all
 users. Each request is one atomic step at its own instant, and instants grow strictly.
 */
module AttendanceLog {
  import opened Options
  import opened Clock
  import opened AttendanceEvents

  /** Outcome of the geofence lookup and check that precedes a check-in. */
  datatype Gate = NoFence | LocationMissing | Checked(isWithin: bool, isNearBoundary: bool)

  datatype Request = Request(user: nat, kind: Kind, now: int, gate: Gate, autoApproved: bool)

  datatype Refusal = LocationRequired | OutsideFence | SessionAlreadyActive | NoActiveSession

  datatype Result = Saved(event: Event) | Refused(why: Refusal)

  predicate IsOpenCandidate(e: Event, user: nat, startOfToday: int) {
    e.user == user && e.kind == CheckIn && e.at >= startOfToday
  }

  /** The user's latest check-in since startOfToday, wherever it is in the table. */
  function LatestCheckIn(rows: seq<Event>, user: nat, startOfToday: int): (r: Option<Event>)
    ensures r.None? ==> forall e :: e in rows ==> !IsOpenCandidate(e, user, startOfToday)
    ensures r.Some? ==> r.value in rows && IsOpenCandidate(r.value, user, startOfToday)
                        && forall e :: e in rows && IsOpenCandidate(e, user, startOfToday) ==> e.at <= r.value.at
  {
    if rows == [] then None
    else
      var e := rows[|rows| - 1];
      var before := LatestCheckIn(rows[..|rows| - 1], user, startOfToday);
      if IsOpenCandidate(e, user, startOfToday) && (before.None? || e.at >= before.value.at) then Some(e) else before
  }

  predicate CheckedOutAfter(rows: seq<Event>, user: nat, t: int) {
    exists e :: e in rows && e.user == user && e.kind == CheckOut && e.at > t
  }

  /** The open session of a user: today's latest check-in, unless a later check-out exists. */
  function ActiveSession(rows: seq<Event>, user: nat, now: int): Option<Event> {
    var latest := LatestCheckIn(rows, user, UtcDay(now) * DAY);
    if latest.Some? && !CheckedOutAfter(rows, user, latest.value.at) then latest else None
  }

  /** The row a request leads to, or the reason it is refused, given the user's open session. */
  function Grant(active: Option<Event>, req: Request): Result {
    if req.kind == CheckIn && req.gate == LocationMissing then Refused(LocationRequired)
    else if req.kind == CheckIn && req.gate.Checked? && !req.gate.isWithin then Refused(OutsideFence)
    else if req.kind == CheckIn && active.Some? then Refused(SessionAlreadyActive)
    else if req.kind == CheckOut && active.None? then Refused(NoActiveSession)
    else
      var near := req.kind == CheckIn && req.gate.Checked? && req.gate.isNearBoundary;
      var approval := if req.kind != CheckIn then NoApproval else if req.autoApproved then Approved else Pending;
      Saved(Event(req.user, req.kind, req.now, near, approval))
  }

  function Decide(rows: seq<Event>, req: Request): Result {
    Grant(ActiveSession(rows, req.user, req.now), req)
  }

  function After(rows: seq<Event>, req: Request): seq<Event> {
    var r := Decide(rows, req);
    if r.Saved? then rows + [r.event] else rows
  }

  class AttendanceService {
    var rows: seq<Event>

    constructor ()
      ensures rows == []
    {
      rows := [];
    }

    method GetActiveSession(user: nat, now: int) returns (active: Option<Event>)
      ensures active == ActiveSession(rows, user, now)
    {
      var latestCheckIn := LatestCheckIn(rows, user, UtcDay(now) * DAY);
      if latestCheckIn.None? {
        return None;
      }
      var matchingCheckOut := CheckedOutAfter(rows, user, latestCheckIn.value.at);
      active := if matchingCheckOut then None else latestCheckIn;
    }

    method DoCreate(req: Request) returns (r: Result)
      modifies this
      ensures r == Decide(old(rows), req)
      ensures rows == After(old(rows), req)
      ensures r.Refused? ==> rows == old(rows)
      ensures r.Saved? ==> rows == old(rows) + [r.event]
                           && r.event.user == req.user && r.event.kind == req.kind && r.event.at == req.now
      ensures r.Saved? ==> r.event.approval
                           == if req.kind != CheckIn then NoApproval else if req.autoApproved then Approved else Pending
      ensures r.Saved? ==> (r.event.nearBoundary <==>
                              req.kind == CheckIn && req.gate.Checked? && req.gate.isNearBoundary)
      ensures r == Refused(LocationRequired) <==> req.kind == CheckIn && req.gate.LocationMissing?
      ensures r == Refused(OutsideFence) <==> req.kind == CheckIn && req.gate.Checked? && !req.gate.isWithin
      ensures req.kind == BreakStart || req.kind == BreakEnd ==> r.Saved?
    {
      var nearBoundary := false;
      if req.kind == CheckIn {
        match req.gate
        case NoFence =>
        case LocationMissing => return Refused(LocationRequired);
        case Checked(isWithin, isNearBoundary) =>
          if !isWithin {
            return Refused(OutsideFence);
          }
          nearBoundary := isNearBoundary;
      }
      if req.kind == CheckIn {
        var activeSession := GetActiveSession(req.user, req.now);
        if activeSession.Some? {
          return Refused(SessionAlreadyActive);
        }
      } else if req.kind == CheckOut {
        var activeSession := GetActiveSession(req.user, req.now);
        if activeSession.None? {
          return Refused(NoActiveSession);
        }
      }
      var approval := NoApproval;
      if req.kind == CheckIn {
        approval := if req.autoApproved then Approved else Pending;
      }
      var saved := Event(req.user, req.kind, req.now, nearBoundary, approval);
      rows := rows + [saved];
      return Saved(saved);
    }
  }

  /** The table after a whole run of requests on an empty table. */
  function Run(reqs: seq<Request>): seq<Event> {
    if reqs == [] then [] else After(Run(reqs[..|reqs| - 1]), reqs[|reqs| - 1])
  }

  ghost predicate ClockGrows(reqs: seq<Request>) {
    forall i, j :: 0 <= i < j < |reqs| ==> reqs[i].now < reqs[j].now
  }

  /** Row e may come next on the clock log of a user. */
  ghost predicate Follows(log: seq<Event>, e: Event, user: nat) {
    && e.user == user
    && (e.kind == CheckIn || e.kind == CheckOut)
    && (e.kind == CheckIn ==> e.approval != NoApproval)
    && (e.kind == CheckOut ==> e.approval == NoApproval && !e.nearBoundary)
    && (log == [] ==> e.kind == CheckIn)
    && (log != [] ==>
          var last := log[|log| - 1];
          && last.at < e.at
          && (e.kind == CheckOut ==> last.kind == CheckIn && UtcDay(last.at) == UtcDay(e.at))
          && (e.kind == CheckIn && last.kind == CheckIn ==> UtcDay(last.at) < UtcDay(e.at)))
  }

  /**
   The shape of a clock log: instants grow, a check-out directly follows a check-in of the same UTC
   day, and a check-in directly follows another only on a later UTC day.
   */
  ghost predicate WellFormed(log: seq<Event>, user: nat) {
    log != [] ==> WellFormed(log[..|log| - 1], user) && Follows(log[..|log| - 1], log[|log| - 1], user)
  }

  lemma {:induction false} WellFormedAscends(log: seq<Event>, user: nat)
    requires WellFormed(log, user)
    ensures StrictlyAscending(log)
  {
    if log != [] {
      var front := log[..|log| - 1];
      WellFormedAscends(front, user);
      forall i | 0 <= i < |front| ensures log[i].at < log[|log| - 1].at {
        assert i == |front| - 1 || front[i].at < front[|front| - 1].at;
      }
    }
  }

  lemma WellFormedSnoc(log: seq<Event>, e: Event, user: nat)
    ensures WellFormed(log + [e], user) <==> WellFormed(log, user) && Follows(log, e, user)
  {
    assert (log + [e])[..|log|] == log;
  }

  /** The session a clock log leaves open at an instant: its last row, if that is a check-in of the same day. */
  function OpenAt(log: seq<Event>, now: int): Option<Event> {
    if log != [] && log[|log| - 1].kind == CheckIn && UtcDay(log[|log| - 1].at) == UtcDay(now)
    then Some(log[|log| - 1]) else None
  }

  /** The two table queries find exactly the session the user's last clock row leaves open. */
  lemma ActiveIsLast(rows: seq<Event>, user: nat, now: int)
    requires WellFormed(ClockOf(rows, user), user)
    requires forall e :: e in rows ==> e.at < now
    ensures ActiveSession(rows, user, now) == OpenAt(ClockOf(rows, user), now)
  {
    var log := ClockOf(rows, user);
    var latest := LatestCheckIn(rows, user, UtcDay(now) * DAY);
    WellFormedAscends(log, user);
    ClockOfMembers(rows, user);
    if log != [] {
      var last := log[|log| - 1];
      assert last in rows;
      assert forall e :: e in log ==> e == last || e.at < last.at;
      if latest.Some? {
        assert latest.value in log;
      }
    }
  }

  /** With the open session known, a clock request is granted iff its row may come next. */
  lemma GrantIffFollows(log: seq<Event>, req: Request)
    requires req.kind == CheckIn || req.kind == CheckOut
    requires log != [] ==> log[|log| - 1].at < req.now && log[|log| - 1].kind in {CheckIn, CheckOut}
    requires req.kind == CheckOut || req.gate == NoFence || (req.gate.Checked? && req.gate.isWithin)
    ensures var r := Grant(OpenAt(log, req.now), req);
            var near := req.kind == CheckIn && req.gate.Checked? && req.gate.isNearBoundary;
            var approval := if req.kind == CheckOut then NoApproval else if req.autoApproved then Approved else Pending;
            var e := Event(req.user, req.kind, req.now, near, approval);
            r == if Follows(log, e, req.user) then Saved(e)
                 else Refused(if req.kind == CheckIn then SessionAlreadyActive else NoActiveSession)
  {
  }

  lemma GrantKeepsShape(log: seq<Event>, req: Request)
    requires WellFormed(log, req.user) && (log != [] ==> log[|log| - 1].at < req.now)
    requires req.kind == CheckIn || req.kind == CheckOut
    ensures var r := Grant(OpenAt(log, req.now), req);
            r.Saved? ==> WellFormed(log + [r.event], req.user)
  {
    var r := Grant(OpenAt(log, req.now), req);
    if r.Saved? {
      GrantIffFollows(log, req);
      WellFormedSnoc(log, r.event, req.user);
    }
  }

  /** One more request keeps the shape, whatever user it is about. */
  lemma StepKeepsShape(rows: seq<Event>, req: Request, user: nat)
    requires WellFormed(ClockOf(rows, user), user)
    requires forall e :: e in rows ==> e.at < req.now
    ensures WellFormed(ClockOf(After(rows, req), user), user)
  {
    var log, r := ClockOf(rows, user), Decide(rows, req);
    if r.Saved? {
      ClockOfSnoc(rows, r.event, user);
      if req.user == user && (req.kind == CheckIn || req.kind == CheckOut) {
        ActiveIsLast(rows, user, req.now);
        ClockOfMembers(rows, user);
        assert log != [] ==> log[|log| - 1] in log;
        GrantKeepsShape(log, req);
      } else {
        assert ClockOf(rows + [r.event], user) == log;
      }
    }
  }

  lemma {:induction false} RunStaysBefore(reqs: seq<Request>, now: int)
    requires forall i :: 0 <= i < |reqs| ==> reqs[i].now < now
    ensures forall e :: e in Run(reqs) ==> e.at < now
  {
    if reqs != [] {
      RunStaysBefore(reqs[..|reqs| - 1], now);
    }
  }

  /** Every run leaves every user with a log of the right shape. */
  lemma {:induction false} ReachableLogsAreWellFormed(reqs: seq<Request>, user: nat)
    requires ClockGrows(reqs)
    ensures WellFormed(ClockOf(Run(reqs), user), user)
  {
    if reqs != [] {
      var front := reqs[..|reqs| - 1];
      ReachableLogsAreWellFormed(front, user);
      RunStaysBefore(front, reqs[|reqs| - 1].now);
      StepKeepsShape(Run(front), reqs[|reqs| - 1], user);
    }
  }

  /** The request that would produce a given clock row. */
  function RequestFor(e: Event): Request {
    Request(e.user, e.kind, e.at, Checked(true, e.nearBoundary), e.approval == Approved)
  }

  function RequestsFor(log: seq<Event>): seq<Request> {
    seq(|log|, i requires 0 <= i < |log| => RequestFor(log[i]))
  }

  /** The request for a row that may come next is granted, and it adds exactly that row. */
  lemma FittingRowIsSaved(rows: seq<Event>, log: seq<Event>, e: Event, user: nat)
    requires log == ClockOf(rows, user) && WellFormed(log, user) && Follows(log, e, user)
    requires forall x :: x in rows ==> x.at < e.at
    ensures Decide(rows, RequestFor(e)) == Saved(e) && ClockOf(rows + [e], user) == log + [e]
  {
    ActiveIsLast(rows, user, e.at);
    ClockOfMembers(rows, user);
    assert log != [] ==> log[|log| - 1] in log;
    GrantIffFollows(log, RequestFor(e));
    ClockOfSnoc(rows, e, user);
  }

  lemma RequestsSnoc(log: seq<Event>, e: Event)
    ensures Run(RequestsFor(log + [e])) == After(Run(RequestsFor(log)), RequestFor(e))
  {
    assert RequestsFor(log + [e])[..|log|] == RequestsFor(log);
  }

  lemma AllBefore(log: seq<Event>, e: Event, user: nat)
    requires WellFormed(log, user) && Follows(log, e, user)
    ensures forall x :: x in log ==> x.at < e.at
  {
    WellFormedAscends(log, user);
  }

  lemma {:induction false} OwnClock(log: seq<Event>, user: nat)
    requires WellFormed(log, user)
    ensures ClockOf(log, user) == log
  {
    if log != [] {
      OwnClock(log[..|log| - 1], user);
    }
  }

  lemma OneMoreRow(front: seq<Event>, e: Event, user: nat)
    requires WellFormed(front, user) && Follows(front, e, user)
    ensures After(front, RequestFor(e)) == front + [e]
  {
    OwnClock(front, user);
    AllBefore(front, e, user);
    FittingRowIsSaved(front, front, e, user);
  }

  lemma {:induction false} RequestsRebuild(log: seq<Event>, user: nat)
    requires WellFormed(log, user)
    ensures Run(RequestsFor(log)) == log
  {
    if log != [] {
      var front, e := log[..|log| - 1], log[|log| - 1];
      RequestsRebuild(front, user);
      OneMoreRow(front, e, user);
      RequestsSnoc(front, e);
      assert log == front + [e];
    }
  }

  /** Conversely, every log of that shape is the table, and the user's clock log, of some run. */
  lemma WellFormedLogsAreReachable(log: seq<Event>, user: nat)
    requires WellFormed(log, user)
    ensures ClockGrows(RequestsFor(log)) && Run(RequestsFor(log)) == log && ClockOf(log, user) == log
  {
    WellFormedAscends(log, user);
    RequestsRebuild(log, user);
    OwnClock(log, user);
  }
}
