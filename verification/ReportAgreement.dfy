/**
 When the daily reports agree. Each report keeps, of every date, the session of its latest check-in; so
 two reports of one log agree iff those sessions do, and hours are lost iff a closed session is not the
 last of its date.
 */
module ReportAgreement {
  import opened AttendanceEvents
  import opened AttendanceLog
  import opened SessionPairing
  import opened WorkedHours
  import opened DayReports

  /** Every instant has a date. */
  ghost predicate Dated(dateOf: int -> string) {
    forall t :: dateOf(t) != ""
  }

  function ReportOf(sessions: seq<Session>, dateOf: int -> string): map<string, Session> {
    Report(sessions, |sessions|, dateOf)
  }

  /** One session for each check-in, in order. */
  ghost predicate Covers(sessions: seq<Session>, ins: seq<Event>) {
    |sessions| == |ins| && forall k :: 0 <= k < |ins| ==> sessions[k].checkIn == ins[k]
  }

  ghost predicate DistinctTimes(ins: seq<Event>) {
    forall i, j :: 0 <= i < |ins| && 0 <= j < |ins| && ins[i].at == ins[j].at ==> i == j
  }

  /** Check-in i is the latest of its date. */
  ghost predicate LatestIn(ins: seq<Event>, dateOf: int -> string, i: nat) {
    i < |ins| && forall j: nat :: j < |ins| && dateOf(ins[j].at) == dateOf(ins[i].at) ==> ins[j].at <= ins[i].at
  }

  /** What a report shows comes from the latest check-in of the date. */
  lemma ShownIsLatest(sessions: seq<Session>, ins: seq<Event>, dateOf: int -> string, d: string) returns (i: nat)
    requires Covers(sessions, ins) && d in ReportOf(sessions, dateOf)
    ensures LatestIn(ins, dateOf, i) && dateOf(ins[i].at) == d && ReportOf(sessions, dateOf)[d] == sessions[i]
  {
    ReportKeepsLatest(sessions, |sessions|, dateOf);
    i :| LatestOf(sessions, |sessions|, dateOf, d, i) && ReportOf(sessions, dateOf)[d] == sessions[i];
  }

  lemma LatestIsShown(sessions: seq<Session>, ins: seq<Event>, dateOf: int -> string, i: nat)
    requires Dated(dateOf) && Covers(sessions, ins) && DistinctTimes(ins) && LatestIn(ins, dateOf, i)
    ensures dateOf(ins[i].at) in ReportOf(sessions, dateOf)
    ensures ReportOf(sessions, dateOf)[dateOf(ins[i].at)] == sessions[i]
  {
    ReportKeepsLatest(sessions, |sessions|, dateOf);
    assert sessions[i].checkIn == ins[i];
    var k := ShownIsLatest(sessions, ins, dateOf, dateOf(ins[i].at));
    assert ins[k].at == ins[i].at;
  }

  lemma ShownAlike(a: seq<Session>, b: seq<Session>, ins: seq<Event>, dateOf: int -> string, d: string)
    requires Dated(dateOf) && Covers(a, ins) && Covers(b, ins) && DistinctTimes(ins) && d in ReportOf(a, dateOf)
    requires forall i: nat :: LatestIn(ins, dateOf, i) ==> a[i] == b[i]
    ensures d in ReportOf(b, dateOf) && ReportOf(b, dateOf)[d] == ReportOf(a, dateOf)[d]
  {
    var i := ShownIsLatest(a, ins, dateOf, d);
    LatestIsShown(b, ins, dateOf, i);
  }

  /** Two reports of the same check-ins agree iff they agree on the latest check-in of each date. */
  lemma ReportsAgreeIff(a: seq<Session>, b: seq<Session>, ins: seq<Event>, dateOf: int -> string)
    requires Dated(dateOf) && Covers(a, ins) && Covers(b, ins) && DistinctTimes(ins)
    ensures ReportOf(a, dateOf) == ReportOf(b, dateOf) <==> forall i: nat :: LatestIn(ins, dateOf, i) ==> a[i] == b[i]
  {
    if ReportOf(a, dateOf) == ReportOf(b, dateOf) {
      forall i: nat | LatestIn(ins, dateOf, i) ensures a[i] == b[i] {
        LatestIsShown(a, ins, dateOf, i);
        LatestIsShown(b, ins, dateOf, i);
      }
    }
    if forall i: nat :: LatestIn(ins, dateOf, i) ==> a[i] == b[i] {
      forall d | d in ReportOf(a, dateOf) ensures d in ReportOf(b, dateOf) && ReportOf(b, dateOf)[d] == ReportOf(a, dateOf)[d] {
        ShownAlike(a, b, ins, dateOf, d);
      }
      forall d | d in ReportOf(b, dateOf) ensures d in ReportOf(a, dateOf) {
        ShownAlike(b, a, ins, dateOf, d);
      }
    }
  }

  lemma ShownReversed(a: seq<Session>, ins: seq<Event>, dateOf: int -> string, d: string)
    requires Dated(dateOf) && Covers(a, ins) && DistinctTimes(ins) && d in ReportOf(a, dateOf)
    ensures d in ReportOf(NewestFirst(a), dateOf) && ReportOf(NewestFirst(a), dateOf)[d] == ReportOf(a, dateOf)[d]
  {
    var i := ShownIsLatest(a, ins, dateOf, d);
    var rev, k := NewestFirst(ins), |ins| - 1 - i;
    forall j: nat | j < |rev| && dateOf(rev[j].at) == dateOf(rev[k].at) ensures rev[j].at <= rev[k].at {
      assert rev[j] == ins[|ins| - 1 - j];
    }
    LatestIsShown(NewestFirst(a), rev, dateOf, k);
  }

  /** The order of the sessions does not matter to their report. */
  lemma ReportOfReversed(a: seq<Session>, ins: seq<Event>, dateOf: int -> string)
    requires Dated(dateOf) && Covers(a, ins) && DistinctTimes(ins)
    ensures ReportOf(NewestFirst(a), dateOf) == ReportOf(a, dateOf)
  {
    forall d | d in ReportOf(a, dateOf)
      ensures d in ReportOf(NewestFirst(a), dateOf) && ReportOf(NewestFirst(a), dateOf)[d] == ReportOf(a, dateOf)[d]
    {
      ShownReversed(a, ins, dateOf, d);
    }
    forall d | d in ReportOf(NewestFirst(a), dateOf) ensures d in ReportOf(a, dateOf) {
      ShownReversed(NewestFirst(a), NewestFirst(ins), dateOf, d);
      assert NewestFirst(NewestFirst(a)) == a;
    }
  }

  /** The sessions behind the listing, the self export and the tenant export of a log. */
  function Listed(log: seq<Event>): seq<Session> { Sessions(InsOf(log), OutsOf(log)) }

  function SelfExported(log: seq<Event>): seq<Session> { Loose(InsOf(log), OutsOf(log)) }

  function TenantExported(log: seq<Event>): seq<Session> {
    Loose(InsOf(NewestFirst(log)), OutsOf(NewestFirst(log)))
  }

  lemma {:induction false} OfKindSum(a: seq<Event>, b: seq<Event>, kind: Kind)
    ensures OfKind(a + b, kind) == OfKind(a, kind) + OfKind(b, kind)
  {
    if b == [] {
      assert a + b == a;
    } else {
      var front, e := b[..|b| - 1], b[|b| - 1];
      OfKindSum(a, front, kind);
      OfKindSnoc(a + front, e, kind);
      OfKindSnoc(front, e, kind);
      assert a + b == (a + front) + [e] && b == front + [e];
    }
  }

  lemma ReversedSnoc(a: seq<Event>, e: Event)
    ensures NewestFirst(a + [e]) == [e] + NewestFirst(a)
  {
  }

  lemma {:induction false} OfKindReversed(es: seq<Event>, kind: Kind)
    ensures OfKind(NewestFirst(es), kind) == NewestFirst(OfKind(es, kind))
  {
    if es != [] {
      var front, e := es[..|es| - 1], es[|es| - 1];
      OfKindReversed(front, kind);
      assert es == front + [e];
      ReversedSnoc(front, e);
      OfKindSum([e], NewestFirst(front), kind);
      OfKindSnoc([], e, kind);
      assert [] + [e] == [e];
      if e.kind == kind {
        ReversedSnoc(OfKind(front, kind), e);
      } else {
        assert [] + NewestFirst(OfKind(front, kind)) == NewestFirst(OfKind(front, kind));
      }
    }
  }

  /** What the tenant export finds for each check-in, in log order. */
  function TenantMatches(ins: seq<Event>, outs: seq<Event>): seq<Session> {
    seq(|ins|, k requires 0 <= k < |ins| => LooseAt(ins, NewestFirst(outs), k))
  }

  lemma TenantInLogOrder(log: seq<Event>)
    ensures TenantExported(log) == NewestFirst(TenantMatches(InsOf(log), OutsOf(log)))
  {
    OfKindReversed(log, CheckIn);
    OfKindReversed(log, CheckOut);
  }

  /** How many check-ins, and how many check-outs, precede position q. */
  function InsBefore(log: seq<Event>, q: nat): nat
    requires q <= |log|
  {
    |InsOf(log[..q])|
  }

  function OutsBefore(log: seq<Event>, q: nat): nat
    requires q <= |log|
  {
    |OutsOf(log[..q])|
  }

  lemma SplitAt(log: seq<Event>, q: nat, kind: Kind)
    requires q < |log|
    ensures OfKind(log, kind) == OfKind(log[..q], kind) + (if log[q].kind == kind then [log[q]] else []) + OfKind(log[q + 1..], kind)
  {
    assert log == log[..q] + [log[q]] + log[q + 1..];
    OfKindSum(log[..q] + [log[q]], log[q + 1..], kind);
    OfKindSnoc(log[..q], log[q], kind);
  }

  lemma InAt(log: seq<Event>, q: nat)
    requires q < |log| && log[q].kind == CheckIn
    ensures InsBefore(log, q) < |InsOf(log)| && InsOf(log)[InsBefore(log, q)] == log[q]
  {
    SplitAt(log, q, CheckIn);
  }

  /** Every check-in of the log is somewhere in it. */
  lemma PositionOf(log: seq<Event>, i: nat) returns (q: nat)
    requires i < |InsOf(log)| && StrictlyAscending(log)
    ensures q < |log| && log[q].kind == CheckIn && log[q] == InsOf(log)[i] && InsBefore(log, q) == i
  {
    OfKindMembers(log, CheckIn);
    assert InsOf(log)[i] in log;
    q :| q < |log| && log[q] == InsOf(log)[i];
    InAt(log, q);
    OfKindStrictlyAscending(log, CheckIn);
  }

  /** The first check-out later than the check-in at q is the first one after it in the log. */
  lemma FirstLaterIsNext(log: seq<Event>, q: nat)
    requires StrictlyAscending(log) && q < |log| && log[q].kind == CheckIn
    ensures FirstLater(OutsOf(log), 0, log[q].at) == OutsBefore(log, q)
    ensures |OutsOf(log)| == OutsBefore(log, q) + |OutsOf(log[q + 1..])|
  {
    var outs, m := OutsOf(log), OutsBefore(log, q);
    SplitAt(log, q, CheckOut);
    OfKindMembers(log[..q], CheckOut);
    OfKindMembers(log[q + 1..], CheckOut);
    forall k | 0 <= k < m ensures outs[k].at <= log[q].at {
      assert outs[k] == OutsOf(log[..q])[k];
      assert outs[k] in log[..q];
    }
    SearchFrom(outs, 0, m, log[q].at);
    if m < |outs| {
      assert outs[m] == OutsOf(log[q + 1..])[0];
      assert outs[m] in log[q + 1..];
    }
  }

  ghost predicate AbandonedBefore(log: seq<Event>, q: nat) {
    exists p: nat :: p < q && AbandonedAt(log, p)
  }

  ghost predicate OutAfter(log: seq<Event>, q: nat) {
    exists j: nat :: q < j < |log| && log[j].kind == CheckOut
  }

  ghost predicate TwoOutsAfter(log: seq<Event>, q: nat) {
    exists j: nat, k: nat :: q < j < k < |log| && log[j].kind == CheckOut && log[k].kind == CheckOut
  }

  lemma AbandonedInPrefix(log: seq<Event>, q: nat)
    requires q < |log|
    ensures SomeAbandoned(log[..q + 1]) <==> AbandonedBefore(log, q)
  {
    var front := log[..q + 1];
    if p: nat :| AbandonedAt(front, p) {
      assert p < q && AbandonedAt(log, p);
    }
    if p: nat :| p < q && AbandonedAt(log, p) {
      assert AbandonedAt(front, p);
    }
  }

  /** The check-in at q is the k-th with k check-outs before it iff none before it was abandoned. */
  lemma InStepIffNoneAbandoned(log: seq<Event>, user: nat, q: nat)
    requires WellFormed(log, user) && q < |log| && log[q].kind == CheckIn
    ensures OutsBefore(log, q) <= InsBefore(log, q)
    ensures OutsBefore(log, q) == InsBefore(log, q) <==> !AbandonedBefore(log, q)
  {
    var front := log[..q];
    PrefixWellFormed(log, user, q);
    Balance(front, user);
    AbandonedSnoc(front, log[q]);
    assert log[..q + 1] == front + [log[q]];
    AbandonedInPrefix(log, q);
  }

  lemma {:induction false} PrefixWellFormed(log: seq<Event>, user: nat, q: nat)
    requires WellFormed(log, user) && q <= |log|
    ensures WellFormed(log[..q], user)
  {
    if q == |log| {
      assert log[..q] == log;
    } else {
      PrefixWellFormed(log[..|log| - 1], user, q);
      assert log[..|log| - 1][..q] == log[..q];
    }
  }

  lemma OutAfterIff(log: seq<Event>, q: nat)
    requires q < |log|
    ensures OutAfter(log, q) <==> OutsOf(log[q + 1..]) != []
  {
    var rest := log[q + 1..];
    OfKindMembers(rest, CheckOut);
    if OutsOf(rest) != [] {
      assert OutsOf(rest)[0] in rest;
      var k: nat :| k < |rest| && rest[k] == OutsOf(rest)[0];
      assert log[q + 1 + k].kind == CheckOut;
    }
    if j: nat :| q < j < |log| && log[j].kind == CheckOut {
      assert rest[j - q - 1] == log[j];
      assert log[j] in OutsOf(rest);
    }
  }

  lemma TwoOfKind(es: seq<Event>, kind: Kind, j: nat, k: nat)
    requires j < k < |es| && es[j].kind == es[k].kind == kind
    ensures |OfKind(es, kind)| > 1
  {
    SplitAt(es, k, kind);
    SplitAt(es[..k], j, kind);
  }

  /** The place of the n-th row of a kind. */
  lemma PlaceOf(es: seq<Event>, kind: Kind, n: nat) returns (k: nat)
    requires n < |OfKind(es, kind)|
    ensures k < |es| && es[k] == OfKind(es, kind)[n] && es[k].kind == kind
  {
    OfKindMembers(es, kind);
    assert OfKind(es, kind)[n] in es;
    k :| k < |es| && es[k] == OfKind(es, kind)[n];
  }

  lemma TwoOutsAfterIff(log: seq<Event>, q: nat)
    requires q < |log| && StrictlyAscending(log)
    ensures TwoOutsAfter(log, q) <==> |OutsOf(log[q + 1..])| > 1
  {
    var rest := log[q + 1..];
    if |OutsOf(rest)| > 1 {
      OfKindStrictlyAscending(rest, CheckOut);
      var j := PlaceOf(rest, CheckOut, 0);
      var k := PlaceOf(rest, CheckOut, 1);
      assert rest[j].at < rest[k].at;
      assert log[q + 1 + j].kind == CheckOut && log[q + 1 + k].kind == CheckOut;
    }
    if j: nat, k: nat :| q < j < k < |log| && log[j].kind == CheckOut && log[k].kind == CheckOut {
      TwoOfKind(rest, CheckOut, j - q - 1, k - q - 1);
    }
  }

  /** The self export matches the check-in at q as the listing does iff none before it was abandoned, or no check-out follows. */
  lemma SelfMatchIff(log: seq<Event>, user: nat, q: nat)
    requires WellFormed(log, user) && q < |log| && log[q].kind == CheckIn
    requires InsBefore(log, q) < |InsOf(log)|
    ensures SelfExported(log)[InsBefore(log, q)] == InStep(InsOf(log), OutsOf(log))[InsBefore(log, q)]
            <==> !AbandonedBefore(log, q) || !OutAfter(log, q)
  {
    WellFormedAscends(log, user);
    InAt(log, q);
    FirstLaterIsNext(log, q);
    InStepIffNoneAbandoned(log, user, q);
    OutAfterIff(log, q);
    OfKindStrictlyAscending(log, CheckOut);
  }

  /** The tenant export matches it as the self export does iff at most one check-out follows. */
  lemma TenantMatchIff(log: seq<Event>, q: nat)
    requires StrictlyAscending(log) && q < |log| && log[q].kind == CheckIn
    requires InsBefore(log, q) < |InsOf(log)|
    ensures TenantMatches(InsOf(log), OutsOf(log))[InsBefore(log, q)] == SelfExported(log)[InsBefore(log, q)]
            <==> !TwoOutsAfter(log, q)
  {
    var outs := OutsOf(log);
    InAt(log, q);
    FirstLaterIsNext(log, q);
    TwoOutsAfterIff(log, q);
    OfKindStrictlyAscending(log, CheckOut);
    NewestIsFound(outs, log[q].at);
    FirstLaterFinds(outs, 0, log[q].at);
  }

  /** The check-in at q is the latest of its date. */
  ghost predicate LatestAt(log: seq<Event>, dateOf: int -> string, q: nat) {
    && q < |log| && log[q].kind == CheckIn
    && forall r: nat :: q < r < |log| && log[r].kind == CheckIn ==> dateOf(log[r].at) != dateOf(log[q].at)
  }

  lemma LatestAtIff(log: seq<Event>, dateOf: int -> string, q: nat)
    requires StrictlyAscending(log) && q < |log| && log[q].kind == CheckIn
    ensures LatestAt(log, dateOf, q) <==> LatestIn(InsOf(log), dateOf, InsBefore(log, q))
  {
    var ins, i := InsOf(log), InsBefore(log, q);
    InAt(log, q);
    OfKindMembers(log, CheckIn);
    if LatestAt(log, dateOf, q) {
      forall j: nat | j < |ins| && dateOf(ins[j].at) == dateOf(ins[i].at) ensures ins[j].at <= ins[i].at {
        var r := PositionOf(log, j);
      }
    }
    if LatestIn(ins, dateOf, i) {
      forall r: nat | q < r < |log| && log[r].kind == CheckIn ensures dateOf(log[r].at) != dateOf(log[q].at) {
        InAt(log, r);
      }
    }
  }

  lemma AscendingIsDistinct(ins: seq<Event>)
    requires StrictlyAscending(ins)
    ensures DistinctTimes(ins)
  {
  }

  /**
   The self export and the listing report the same iff, for the latest check-in of every date, no
   earlier check-in was abandoned or no check-out follows.
   */
  lemma SelfReportAgreesIff(log: seq<Event>, user: nat, dateOf: int -> string)
    requires WellFormed(log, user) && Dated(dateOf)
    ensures ReportOf(SelfExported(log), dateOf) == ReportOf(Listed(log), dateOf)
            <==> forall q: nat :: LatestAt(log, dateOf, q) ==> !AbandonedBefore(log, q) || !OutAfter(log, q)
  {
    var ins := InsOf(log);
    WellFormedAscends(log, user);
    OfKindStrictlyAscending(log, CheckIn);
    AscendingIsDistinct(ins);
    PairingIsInStep(log, user);
    ReportsAgreeIff(SelfExported(log), Listed(log), ins, dateOf);
    if forall i: nat :: LatestIn(ins, dateOf, i) ==> SelfExported(log)[i] == Listed(log)[i] {
      forall q: nat | LatestAt(log, dateOf, q) ensures !AbandonedBefore(log, q) || !OutAfter(log, q) {
        LatestAtIff(log, dateOf, q);
        SelfMatchIff(log, user, q);
      }
    }
    if forall q: nat :: LatestAt(log, dateOf, q) ==> !AbandonedBefore(log, q) || !OutAfter(log, q) {
      forall i: nat | LatestIn(ins, dateOf, i) ensures SelfExported(log)[i] == Listed(log)[i] {
        var q := PositionOf(log, i);
        LatestAtIff(log, dateOf, q);
        SelfMatchIff(log, user, q);
      }
    }
  }

  /** The tenant export and the self export report the same iff the latest check-in of every date has at most one later check-out. */
  lemma TenantReportAgreesIff(log: seq<Event>, user: nat, dateOf: int -> string)
    requires WellFormed(log, user) && Dated(dateOf)
    ensures ReportOf(TenantExported(log), dateOf) == ReportOf(SelfExported(log), dateOf)
            <==> forall q: nat :: LatestAt(log, dateOf, q) ==> !TwoOutsAfter(log, q)
  {
    var ins, matches := InsOf(log), TenantMatches(InsOf(log), OutsOf(log));
    WellFormedAscends(log, user);
    OfKindStrictlyAscending(log, CheckIn);
    AscendingIsDistinct(ins);
    TenantInLogOrder(log);
    ReportOfReversed(matches, ins, dateOf);
    ReportsAgreeIff(matches, SelfExported(log), ins, dateOf);
    if forall i: nat :: LatestIn(ins, dateOf, i) ==> matches[i] == SelfExported(log)[i] {
      forall q: nat | LatestAt(log, dateOf, q) ensures !TwoOutsAfter(log, q) {
        LatestAtIff(log, dateOf, q);
        TenantMatchIff(log, q);
      }
    }
    if forall q: nat :: LatestAt(log, dateOf, q) ==> !TwoOutsAfter(log, q) {
      forall i: nat | LatestIn(ins, dateOf, i) ensures matches[i] == SelfExported(log)[i] {
        var q := PositionOf(log, i);
        LatestAtIff(log, dateOf, q);
        TenantMatchIff(log, q);
      }
    }
  }
}
