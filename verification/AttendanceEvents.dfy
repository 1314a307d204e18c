/** Attendance rows, and the selections of rows that every reader of the log starts from. */
module AttendanceEvents {
  datatype Kind = CheckIn | CheckOut | BreakStart | BreakEnd

  /** Approval of a check-in; other rows carry none. */
  datatype Approval = NoApproval | Pending | Approved

  /** One row: who, what, when (milliseconds since the epoch), and the check-in annotations. */
  datatype Event = Event(user: nat, kind: Kind, at: int, nearBoundary: bool, approval: Approval)

  predicate Ascending(es: seq<Event>) {
    forall i, j :: 0 <= i < j < |es| ==> es[i].at <= es[j].at
  }

  predicate StrictlyAscending(es: seq<Event>) {
    forall i, j :: 0 <= i < j < |es| ==> es[i].at < es[j].at
  }

  /** The rows of one kind, in log order. */
  function OfKind(es: seq<Event>, kind: Kind): seq<Event>
  {
    if es == [] then []
    else
      var last := es[|es| - 1];
      OfKind(es[..|es| - 1], kind) + if last.kind == kind then [last] else []
  }

  /** The check-ins and check-outs of one user, in log order. */
  function ClockOf(es: seq<Event>, user: nat): seq<Event>
  {
    if es == [] then []
    else
      var last := es[|es| - 1];
      ClockOf(es[..|es| - 1], user)
      + if last.user == user && (last.kind == CheckIn || last.kind == CheckOut) then [last] else []
  }

  /** All rows of one user, in log order. */
  function RowsOf(es: seq<Event>, user: nat): seq<Event>
  {
    if es == [] then []
    else
      var last := es[|es| - 1];
      RowsOf(es[..|es| - 1], user) + if last.user == user then [last] else []
  }

  lemma {:induction false} OfKindMembers(es: seq<Event>, kind: Kind)
    ensures forall e :: e in OfKind(es, kind) <==> e in es && e.kind == kind
  {
    if es != [] {
      OfKindMembers(es[..|es| - 1], kind);
      assert es == es[..|es| - 1] + [es[|es| - 1]];
    }
  }

  lemma {:induction false} ClockOfMembers(es: seq<Event>, user: nat)
    ensures forall e :: e in ClockOf(es, user) <==>
                        e in es && e.user == user && (e.kind == CheckIn || e.kind == CheckOut)
  {
    if es != [] {
      ClockOfMembers(es[..|es| - 1], user);
      assert es == es[..|es| - 1] + [es[|es| - 1]];
    }
  }

  lemma {:induction false} RowsOfMembers(es: seq<Event>, user: nat)
    ensures forall e :: e in RowsOf(es, user) <==> e in es && e.user == user
  {
    if es != [] {
      RowsOfMembers(es[..|es| - 1], user);
      assert es == es[..|es| - 1] + [es[|es| - 1]];
    }
  }

  lemma OfKindSnoc(es: seq<Event>, e: Event, kind: Kind)
    ensures OfKind(es + [e], kind) == OfKind(es, kind) + if e.kind == kind then [e] else []
  {
    assert (es + [e])[..|es|] == es;
  }

  lemma ClockOfSnoc(es: seq<Event>, e: Event, user: nat)
    ensures ClockOf(es + [e], user) ==
            ClockOf(es, user) + if e.user == user && (e.kind == CheckIn || e.kind == CheckOut) then [e] else []
  {
    assert (es + [e])[..|es|] == es;
  }

  lemma {:induction false} OfKindAscending(es: seq<Event>, kind: Kind)
    requires Ascending(es)
    ensures Ascending(OfKind(es, kind))
  {
    if es != [] {
      var front := es[..|es| - 1];
      OfKindAscending(front, kind);
      OfKindMembers(front, kind);
      forall e | e in OfKind(front, kind) ensures e.at <= es[|es| - 1].at {
        assert e in front;
      }
    }
  }

  lemma {:induction false} OfKindStrictlyAscending(es: seq<Event>, kind: Kind)
    requires StrictlyAscending(es)
    ensures StrictlyAscending(OfKind(es, kind))
  {
    if es != [] {
      var front := es[..|es| - 1];
      OfKindStrictlyAscending(front, kind);
      OfKindMembers(front, kind);
      forall e | e in OfKind(front, kind) ensures e.at < es[|es| - 1].at {
        assert e in front;
      }
    }
  }
}
