/**
 The life of announcements: created, rescheduled, sent, cancelled, deleted, and sent by the minutely
 scan for due ones. Saving always succeeds here; mails may fail one by one.
 */
module Announcements {
  import opened Options

  datatype Status = Draft | Scheduled | Sent | Cancelled

  datatype Announcement = Announcement(tenant: nat, status: Status, scheduledAt: Option<int>, sentAt: Option<int>,
                                       recipients: nat, deleted: bool)

  /** A mail about an announcement, handed to the mailer for a user. */
  datatype Mail = Mail(announcement: nat, user: nat)

  /** The table, an announcement's id being its index, and every mail handed over so far. */
  datatype State = State(table: seq<Announcement>, mails: seq<Mail>)

  /** What the outside contributes to a request: the clock, each tenant's users, and which mails get through. */
  datatype World = World(now: int, users: nat -> seq<nat>, delivers: Mail -> bool)

  /** For an update, None leaves the schedule alone and Some(None) removes it. */
  datatype Op =
    | Create(tenant: nat, sendNow: bool, scheduledAt: Option<int>)
    | Update(tenant: nat, id: nat, schedule: Option<Option<int>>)
    | SoftDelete(tenant: nat, id: nat)
    | Send(tenant: nat, id: nat)
    | Cancel(tenant: nat, id: nat)
    | Scan(legacy: set<nat>, provisioned: seq<nat>)

  datatype Answer = Done | NotFound | AlreadySent | IsCancelled

  predicate Visible(table: seq<Announcement>, tenant: nat, id: nat) {
    id < |table| && table[id].tenant == tenant && !table[id].deleted
  }

  function MailsTo(id: nat, users: seq<nat>): seq<Mail> {
    seq(|users|, i requires 0 <= i < |users| => Mail(id, users[i]))
  }

  function Delivered(id: nat, users: seq<nat>, w: World): nat {
    if users == [] then 0
    else Delivered(id, users[..|users| - 1], w) + if w.delivers(Mail(id, users[|users| - 1])) then 1 else 0
  }

  /** Sending: a tenant without users is skipped; else everybody is mailed and the row becomes sent. */
  function SendOut(s: State, id: nat, w: World): State
    requires id < |s.table|
  {
    var users := w.users(s.table[id].tenant);
    if users == [] then s
    else State(s.table[id := s.table[id].(status := Sent, sentAt := Some(w.now), recipients := Delivered(id, users, w))],
               s.mails + MailsTo(id, users))
  }

  /** The row after its mails went out: sent, stamped, with the number of mails that got through. */
  function Stamped(a: Announcement, id: nat, w: World): Announcement {
    var users := w.users(a.tenant);
    a.(status := Sent, sentAt := Some(w.now), recipients := |set i | 0 <= i < |users| && w.delivers(Mail(id, users[i]))|)
  }

  /** From one state to the next announcement id was mailed to every user of its tenant, in order, and stamped; without users nothing happened. */
  ghost predicate WasSentOut(s: State, t: State, id: nat, w: World)
    requires id < |s.table|
  {
    var users := w.users(s.table[id].tenant);
    if users == [] then t == s
    else
      && t.table == s.table[id := Stamped(s.table[id], id, w)]
      && |t.mails| == |s.mails| + |users|
      && (forall i :: 0 <= i < |s.mails| ==> t.mails[i] == s.mails[i])
      && (forall i :: 0 <= i < |users| ==> t.mails[|s.mails| + i] == Mail(id, users[i]))
  }

  function DeliveredAmong(id: nat, users: seq<nat>, w: World, n: nat): set<nat>
    requires n <= |users|
  {
    set i: nat | i < n && w.delivers(Mail(id, users[i]))
  }

  lemma {:induction false} DeliveredIsCount(id: nat, users: seq<nat>, w: World, n: nat)
    requires n <= |users|
    ensures Delivered(id, users[..n], w) == |DeliveredAmong(id, users, w, n)|
  {
    if n == 0 {
      assert DeliveredAmong(id, users, w, n) == {};
    } else {
      var before, hit := DeliveredAmong(id, users, w, n - 1), w.delivers(Mail(id, users[n - 1]));
      DeliveredIsCount(id, users, w, n - 1);
      assert users[..n][..n - 1] == users[..n - 1];
      assert DeliveredAmong(id, users, w, n) == if hit then before + {n - 1} else before;
    }
  }

  lemma SendOutSends(s: State, id: nat, w: World)
    requires id < |s.table|
    ensures WasSentOut(s, SendOut(s, id, w), id, w)
  {
    var users := w.users(s.table[id].tenant);
    DeliveredIsCount(id, users, w, |users|);
    assert users[..|users|] == users;
    assert DeliveredAmong(id, users, w, |users|) == set i | 0 <= i < |users| && w.delivers(Mail(id, users[i]));
  }

  predicate IsDue(a: Announcement, now: int) {
    a.status == Scheduled && !a.deleted && a.scheduledAt.Some? && a.scheduledAt.value <= now
  }

  /** The due announcements of some tenants, among the first n rows. */
  function Due(table: seq<Announcement>, now: int, tenants: set<nat>, n: nat): seq<nat>
    requires n <= |table|
  {
    if n == 0 then []
    else Due(table, now, tenants, n - 1)
         + if IsDue(table[n - 1], now) && table[n - 1].tenant in tenants then [n - 1] else []
  }

  predicate Ids(ids: seq<nat>, n: nat) {
    forall i :: 0 <= i < |ids| ==> ids[i] < n
  }

  function SendAll(s: State, ids: seq<nat>, w: World): (r: State)
    requires Ids(ids, |s.table|)
    ensures |r.table| == |s.table|
  {
    if ids == [] then s else SendOut(SendAll(s, ids[..|ids| - 1], w), ids[|ids| - 1], w)
  }

  lemma {:induction false} DueIds(table: seq<Announcement>, now: int, tenants: set<nat>, n: nat)
    requires n <= |table|
    ensures forall i :: 0 <= i < |Due(table, now, tenants, n)| ==>
                          var id := Due(table, now, tenants, n)[i];
                          id < n && IsDue(table[id], now) && table[id].tenant in tenants
    ensures forall id: nat :: id < n && IsDue(table[id], now) && table[id].tenant in tenants ==>
                                id in Due(table, now, tenants, n)
  {
    if n > 0 {
      DueIds(table, now, tenants, n - 1);
    }
  }

  function SendDue(s: State, tenants: set<nat>, w: World): (r: State)
    ensures |r.table| == |s.table|
  {
    DueIds(s.table, w.now, tenants, |s.table|);
    SendAll(s, Due(s.table, w.now, tenants, |s.table|), w)
  }

  /** One round of sending for each tenant with its own schema. */
  function SendDueEach(s: State, tenants: seq<nat>, w: World): (r: State)
    ensures |r.table| == |s.table|
  {
    if tenants == [] then s else SendDue(SendDueEach(s, tenants[..|tenants| - 1], w), {tenants[|tenants| - 1]}, w)
  }

  function Step(s: State, op: Op, w: World): (State, Answer) {
    match op
    case Create(tenant, sendNow, at) =>
      var a := Announcement(tenant, if sendNow then Sent else if at.Some? then Scheduled else Draft, at, None, 0, false);
      var saved := s.(table := s.table + [a]);
      (if sendNow then SendOut(saved, |s.table|, w) else saved, Done)
    case Update(tenant, id, schedule) =>
      if !Visible(s.table, tenant, id) then (s, NotFound)
      else if s.table[id].status == Sent then (s, AlreadySent)
      else if schedule.None? then (s, Done)
      else
        var a := s.table[id].(scheduledAt := schedule.value, status := if schedule.value.Some? then Scheduled else Draft);
        (s.(table := s.table[id := a]), Done)
    case SoftDelete(tenant, id) =>
      if !Visible(s.table, tenant, id) then (s, NotFound)
      else (s.(table := s.table[id := s.table[id].(deleted := true)]), Done)
    case Send(tenant, id) =>
      if !Visible(s.table, tenant, id) then (s, NotFound)
      else if s.table[id].status == Sent then (s, AlreadySent)
      else if s.table[id].status == Cancelled then (s, IsCancelled)
      else (SendOut(s, id, w), Done)
    case Cancel(tenant, id) =>
      if !Visible(s.table, tenant, id) then (s, NotFound)
      else if s.table[id].status == Sent then (s, AlreadySent)
      else (s.(table := s.table[id := s.table[id].(status := Cancelled, scheduledAt := None)]), Done)
    case Scan(legacy, provisioned) => (SendDueEach(SendDue(s, legacy, w), provisioned, w), Done)
  }

  class AnnouncementService {
    var table: seq<Announcement>
    ghost var mails: seq<Mail>

    ghost function Current(): State
      reads this
    {
      State(table, mails)
    }

    constructor ()
      ensures Current() == State([], [])
    {
      table, mails := [], [];
    }

    method Create(tenant: nat, sendNow: bool, at: Option<int>, w: World) returns (id: nat)
      modifies this
      ensures id == |old(table)|
      ensures Current() == Step(old(Current()), Op.Create(tenant, sendNow, at), w).0
      ensures !sendNow ==>
                table == old(table) + [Announcement(tenant, if at.Some? then Scheduled else Draft, at, None, 0, false)]
                && mails == old(mails)
      ensures sendNow ==>
                WasSentOut(State(old(table) + [Announcement(tenant, Sent, at, None, 0, false)], old(mails)), Current(), id, w)
    {
      var status := if sendNow then Sent else if at.Some? then Scheduled else Draft;
      id := |table|;
      table := table + [Announcement(tenant, status, at, None, 0, false)];
      if sendNow {
        SendAnnouncementToTenant(id, w);
      }
    }

    method Update(tenant: nat, id: nat, schedule: Option<Option<int>>, w: World) returns (answer: Answer)
      modifies this
      ensures (Current(), answer) == Step(old(Current()), Op.Update(tenant, id, schedule), w)
      ensures answer == Done <==> Visible(old(table), tenant, id) && old(table)[id].status != Sent
      ensures mails == old(mails)
      ensures answer == Done && schedule.Some? ==>
                table == old(table)[id := old(table)[id].(scheduledAt := schedule.value,
                                                          status := if schedule.value.Some? then Scheduled else Draft)]
      ensures answer != Done || schedule.None? ==> table == old(table)
    {
      if !Visible(table, tenant, id) {
        return NotFound;
      }
      if table[id].status == Sent {
        return AlreadySent;
      }
      var announcement := table[id];
      if schedule.Some? {
        announcement := announcement.(scheduledAt := schedule.value);
        announcement := announcement.(status := if schedule.value.Some? then Scheduled else Draft);
      }
      assert schedule.None? ==> table == table[id := announcement];
      table := table[id := announcement];
      return Done;
    }

    method SoftDelete(tenant: nat, id: nat, w: World) returns (answer: Answer)
      modifies this
      ensures (Current(), answer) == Step(old(Current()), Op.SoftDelete(tenant, id), w)
      ensures answer == Done <==> Visible(old(table), tenant, id)
      ensures !Visible(table, tenant, id)
      ensures |table| == |old(table)|
      ensures forall i :: 0 <= i < |table| && i != id ==> table[i] == old(table)[i]
    {
      if !Visible(table, tenant, id) {
        return NotFound;
      }
      table := table[id := table[id].(deleted := true)];
      return Done;
    }

    method Send(tenant: nat, id: nat, w: World) returns (answer: Answer)
      modifies this
      ensures (Current(), answer) == Step(old(Current()), Op.Send(tenant, id), w)
      ensures answer == Done <==> Visible(old(table), tenant, id) && old(table)[id].status in {Draft, Scheduled}
      ensures answer == Done ==> WasSentOut(old(Current()), Current(), id, w)
      ensures answer != Done ==> Current() == old(Current())
    {
      if !Visible(table, tenant, id) {
        return NotFound;
      }
      if table[id].status == Sent {
        return AlreadySent;
      }
      if table[id].status == Cancelled {
        return IsCancelled;
      }
      SendAnnouncementToTenant(id, w);
      return Done;
    }

    method Cancel(tenant: nat, id: nat, w: World) returns (answer: Answer)
      modifies this
      ensures (Current(), answer) == Step(old(Current()), Op.Cancel(tenant, id), w)
      ensures answer == Done ==> table[id].status == Cancelled && table[id].scheduledAt.None?
      ensures answer != Done ==> table == old(table)
      ensures |table| == |old(table)|
      ensures forall i :: 0 <= i < |table| && i != id ==> table[i] == old(table)[i]
    {
      if !Visible(table, tenant, id) {
        return NotFound;
      }
      if table[id].status == Sent {
        return AlreadySent;
      }
      table := table[id := table[id].(status := Cancelled, scheduledAt := None)];
      return Done;
    }

    /** The loop over the users: everybody is mailed, and the mails that get through are counted. */
    method MailUsers(id: nat, tenantUsers: seq<nat>, w: World) returns (sentCount: nat)
      modifies this
      ensures table == old(table)
      ensures mails == old(mails) + MailsTo(id, tenantUsers)
      ensures sentCount == Delivered(id, tenantUsers, w)
    {
      sentCount := 0;
      for i := 0 to |tenantUsers|
        invariant table == old(table)
        invariant sentCount == Delivered(id, tenantUsers[..i], w)
        invariant mails == old(mails) + MailsTo(id, tenantUsers)[..i]
      {
        assert tenantUsers[..i + 1][..i] == tenantUsers[..i];
        mails := mails + [Mail(id, tenantUsers[i])];
        if w.delivers(Mail(id, tenantUsers[i])) {
          sentCount := sentCount + 1;
        }
      }
      assert tenantUsers[..|tenantUsers|] == tenantUsers;
    }

    method SendAnnouncementToTenant(id: nat, w: World)
      requires id < |table|
      modifies this
      ensures Current() == SendOut(old(Current()), id, w)
      ensures WasSentOut(old(Current()), Current(), id, w)
    {
      SendOutSends(Current(), id, w);
      var tenantUsers := w.users(table[id].tenant);
      if |tenantUsers| == 0 {
        return;
      }
      var sentCount := MailUsers(id, tenantUsers, w);
      table := table[id := table[id].(status := Sent, sentAt := Some(w.now), recipients := sentCount)];
    }

    method SendScheduled(tenants: set<nat>, w: World)
      modifies this
      ensures Current() == SendDue(old(Current()), tenants, w)
    {
      var scheduled := Due(table, w.now, tenants, |table|);
      DueIds(table, w.now, tenants, |table|);
      for i := 0 to |scheduled|
        invariant Ids(scheduled, |old(table)|)
        invariant Current() == SendAll(old(Current()), scheduled[..i], w)
      {
        assert scheduled[..i + 1][..i] == scheduled[..i];
        SendAnnouncementToTenant(scheduled[i], w);
      }
      assert scheduled[..|scheduled|] == scheduled;
    }

    method ProcessScheduledAnnouncements(legacy: set<nat>, provisioned: seq<nat>, w: World)
      modifies this
      ensures Current() == Step(old(Current()), Scan(legacy, provisioned), w).0
    {
      SendScheduled(legacy, w);
      for i := 0 to |provisioned|
        invariant Current() == SendDueEach(SendDue(old(Current()), legacy, w), provisioned[..i], w)
      {
        assert provisioned[..i + 1][..i] == provisioned[..i];
        SendScheduled({provisioned[i]}, w);
      }
      assert provisioned[..|provisioned|] == provisioned;
    }
  }

  /** A scheduled row has a time, a draft or cancelled row has none, and only a sent row was mailed. */
  predicate RowOk(a: Announcement) {
    && (a.status == Scheduled ==> a.scheduledAt.Some?)
    && (a.status == Draft || a.status == Cancelled ==> a.scheduledAt.None?)
    && (a.sentAt.Some? ==> a.status == Sent)
  }

  /** Every mail is about an announcement that was sent, and no user is mailed twice about one. */
  ghost predicate MailsOk(s: State) {
    && (forall i :: 0 <= i < |s.mails| ==> MailedRow(s, s.mails[i].announcement))
    && (forall i, j :: 0 <= i < j < |s.mails| ==> s.mails[i] != s.mails[j])
  }

  predicate MailedRow(s: State, id: nat) {
    id < |s.table| && s.table[id].sentAt.Some?
  }

  ghost predicate Inv(s: State) {
    MailsOk(s) && forall id :: 0 <= id < |s.table| ==> RowOk(s.table[id])
  }

  predicate NoRepeats(users: seq<nat>) {
    forall i, j :: 0 <= i < j < |users| ==> users[i] != users[j]
  }

  /** Each user is listed once in each tenant. */
  ghost predicate Proper(w: World) {
    forall t :: NoRepeats(w.users(t))
  }

  lemma SendOutKeeps(s: State, id: nat, w: World)
    requires Inv(s) && Proper(w) && id < |s.table| && s.table[id].sentAt.None?
    ensures Inv(SendOut(s, id, w))
  {
    var users := w.users(s.table[id].tenant);
    if users != [] {
      var s', added := SendOut(s, id, w), MailsTo(id, users);
      assert NoRepeats(users);
      forall i | 0 <= i < |s.mails| ensures s.mails[i].announcement != id && MailedRow(s', s.mails[i].announcement) {
        assert MailedRow(s, s.mails[i].announcement);
      }
      forall i, j | 0 <= i < j < |s'.mails| ensures s'.mails[i] != s'.mails[j] {
        if j >= |s.mails| {
          assert s'.mails[j] == added[j - |s.mails|];
          if i >= |s.mails| {
            assert s'.mails[i] == added[i - |s.mails|];
          }
        }
      }
    }
  }

  /** Sending touches the rows it is given and no other. */
  lemma {:induction false} SendAllFrame(s: State, ids: seq<nat>, w: World, id: nat)
    requires Ids(ids, |s.table|) && id < |s.table| && id !in ids
    ensures SendAll(s, ids, w).table[id] == s.table[id]
  {
    if ids != [] {
      SendAllFrame(s, ids[..|ids| - 1], w, id);
      assert ids[|ids| - 1] in ids;
    }
  }

  ghost predicate Unsent(s: State, ids: seq<nat>) {
    Ids(ids, |s.table|) && NoRepeats(ids) && forall i :: 0 <= i < |ids| ==> s.table[ids[i]].sentAt.None?
  }

  lemma {:induction false} SendAllKeeps(s: State, ids: seq<nat>, w: World)
    requires Inv(s) && Proper(w) && Unsent(s, ids)
    ensures Inv(SendAll(s, ids, w))
  {
    if ids != [] {
      var front, last := ids[..|ids| - 1], ids[|ids| - 1];
      SendAllKeeps(s, front, w);
      SendAllFrame(s, front, w, last);
      SendOutKeeps(SendAll(s, front, w), last, w);
    }
  }

  lemma {:induction false} DueAscends(table: seq<Announcement>, now: int, tenants: set<nat>, n: nat)
    requires n <= |table|
    ensures NoRepeats(Due(table, now, tenants, n))
  {
    if n > 0 {
      DueAscends(table, now, tenants, n - 1);
      DueIds(table, now, tenants, n - 1);
    }
  }

  lemma SendDueKeeps(s: State, tenants: set<nat>, w: World)
    requires Inv(s) && Proper(w)
    ensures Inv(SendDue(s, tenants, w))
  {
    DueIds(s.table, w.now, tenants, |s.table|);
    DueAscends(s.table, w.now, tenants, |s.table|);
    SendAllKeeps(s, Due(s.table, w.now, tenants, |s.table|), w);
  }

  lemma {:induction false} SendDueEachKeeps(s: State, tenants: seq<nat>, w: World)
    requires Inv(s) && Proper(w)
    ensures Inv(SendDueEach(s, tenants, w))
  {
    if tenants != [] {
      SendDueEachKeeps(s, tenants[..|tenants| - 1], w);
      SendDueKeeps(SendDueEach(s, tenants[..|tenants| - 1], w), {tenants[|tenants| - 1]}, w);
    }
  }

  lemma EditKeeps(s: State, id: nat, a: Announcement)
    requires Inv(s) && id < |s.table| && RowOk(a) && a.sentAt == s.table[id].sentAt
    ensures Inv(s.(table := s.table[id := a]))
  {
    forall i | 0 <= i < |s.mails| ensures MailedRow(s.(table := s.table[id := a]), s.mails[i].announcement) {
      assert MailedRow(s, s.mails[i].announcement);
    }
  }

  lemma CreateKeeps(s: State, a: Announcement)
    requires Inv(s) && RowOk(a)
    ensures Inv(s.(table := s.table + [a]))
  {
    forall i | 0 <= i < |s.mails| ensures MailedRow(s.(table := s.table + [a]), s.mails[i].announcement) {
      assert MailedRow(s, s.mails[i].announcement);
    }
  }

  lemma StepKeeps(s: State, op: Op, w: World)
    requires Inv(s) && Proper(w)
    ensures Inv(Step(s, op, w).0)
  {
    match op
    case Create(tenant, sendNow, at) =>
      var a := Announcement(tenant, if sendNow then Sent else if at.Some? then Scheduled else Draft, at, None, 0, false);
      CreateKeeps(s, a);
      if sendNow {
        SendOutKeeps(s.(table := s.table + [a]), |s.table|, w);
      }
    case Send(tenant, id) =>
      if Step(s, op, w).1 == Done {
        SendOutKeeps(s, id, w);
      }
    case Scan(legacy, provisioned) =>
      SendDueKeeps(s, legacy, w);
      SendDueEachKeeps(SendDue(s, legacy, w), provisioned, w);
    case _ =>
      if Step(s, op, w).1 == Done {
        EditKeeps(s, op.id, Step(s, op, w).0.table[op.id]);
        assert Step(s, op, w).0.table == s.table[op.id := Step(s, op, w).0.table[op.id]];
      }
  }

  /** A request that names a tenant and an announcement. */
  predicate NamesRow(op: Op) { op.Update? || op.SoftDelete? || op.Send? || op.Cancel? }

  /** Such a request is not found, and changes nothing, iff the row is missing, deleted or another tenant's; and it changes no other row. */
  lemma TenantsAreApart(s: State, op: Op, w: World)
    requires NamesRow(op)
    ensures var t, answer := Step(s, op, w).0, Step(s, op, w).1;
            && (answer == NotFound <==> op.id >= |s.table| || s.table[op.id].tenant != op.tenant || s.table[op.id].deleted)
            && (answer == NotFound ==> t == s)
            && |t.table| == |s.table| && forall i :: 0 <= i < |s.table| && i != op.id ==> t.table[i] == s.table[i]
  {
  }

  /** The state after the first n requests of a run. */
  function Run(reqs: seq<(Op, World)>, n: nat): State
    requires n <= |reqs|
  {
    if n == 0 then State([], []) else Step(Run(reqs, n - 1), reqs[n - 1].0, reqs[n - 1].1).0
  }

  /**
   In every state a run reaches: scheduled rows have a time, drafts and cancelled rows have none, a row
   with a sending time is sent, every mail belongs to a row with a sending time, and no user was mailed
   twice about the same announcement.
   */
  lemma {:induction false} RunsKeepOrder(reqs: seq<(Op, World)>, n: nat)
    requires n <= |reqs| && forall i :: 0 <= i < |reqs| ==> Proper(reqs[i].1)
    ensures Inv(Run(reqs, n))
  {
    if n > 0 {
      RunsKeepOrder(reqs, n - 1);
      StepKeeps(Run(reqs, n - 1), reqs[n - 1].0, reqs[n - 1].1);
    }
  }

  /** Nothing but the deletion mark of a sent row can change. */
  predicate Frozen(a: Announcement, b: Announcement) {
    a.status == Sent ==> b == a || b == a.(deleted := true)
  }

  lemma SendDueFrame(s: State, tenants: set<nat>, w: World, id: nat)
    requires id < |s.table| && !IsDue(s.table[id], w.now)
    ensures SendDue(s, tenants, w).table[id] == s.table[id]
  {
    DueIds(s.table, w.now, tenants, |s.table|);
    SendAllFrame(s, Due(s.table, w.now, tenants, |s.table|), w, id);
  }

  lemma {:induction false} SendDueEachFrame(s: State, tenants: seq<nat>, w: World, id: nat)
    requires id < |s.table| && !IsDue(s.table[id], w.now)
    ensures SendDueEach(s, tenants, w).table[id] == s.table[id]
  {
    if tenants != [] {
      SendDueEachFrame(s, tenants[..|tenants| - 1], w, id);
      SendDueFrame(SendDueEach(s, tenants[..|tenants| - 1], w), {tenants[|tenants| - 1]}, w, id);
    }
  }

  /** Sent is never left: no request changes a sent row, except to mark it deleted. */
  lemma SentIsFinal(s: State, op: Op, w: World, id: nat)
    requires id < |s.table|
    ensures id < |Step(s, op, w).0.table| && Frozen(s.table[id], Step(s, op, w).0.table[id])
  {
    if op.Scan? && s.table[id].status == Sent {
      SendDueFrame(s, op.legacy, w, id);
      SendDueEachFrame(SendDue(s, op.legacy, w), op.provisioned, w, id);
    }
  }

  /** Once a run has sent a row, whatever comes next, the row stays as it is up to deletion. */
  lemma {:induction false} SentForever(reqs: seq<(Op, World)>, n: nat, k: nat, id: nat)
    requires n <= k <= |reqs| && id < |Run(reqs, n).table|
    ensures id < |Run(reqs, k).table| && Frozen(Run(reqs, n).table[id], Run(reqs, k).table[id])
    decreases k
  {
    if n < k {
      SentForever(reqs, n, k - 1, id);
      SentIsFinal(Run(reqs, k - 1), reqs[k - 1].0, reqs[k - 1].1, id);
    }
  }

  /** Sending an announcement of a tenant with users mails each of them. */
  lemma SendMailsEverybody(s: State, id: nat, w: World, u: nat)
    requires id < |s.table| && u in w.users(s.table[id].tenant)
    ensures SendOut(s, id, w).table[id].status == Sent && Mail(id, u) in SendOut(s, id, w).mails
  {
    var users := w.users(s.table[id].tenant);
    var i :| 0 <= i < |users| && users[i] == u;
    assert MailsTo(id, users)[i] == Mail(id, u);
    assert SendOut(s, id, w).mails[|s.mails| + i] == Mail(id, u);
  }

  /** Users of a tenant are there to be mailed about a row. */
  predicate Mailable(a: Announcement, w: World) { w.users(a.tenant) != [] }

  lemma SendOutRow(s: State, last: nat, w: World, id: nat)
    requires last < |s.table| && id < |s.table|
    ensures SendOut(s, last, w).table[id]
            == if id == last && Mailable(s.table[id], w) then Stamped(s.table[id], id, w) else s.table[id]
  {
    SendOutSends(s, last, w);
  }

  lemma {:induction false} SendAllRow(s: State, ids: seq<nat>, w: World, id: nat)
    requires Ids(ids, |s.table|) && id < |s.table|
    ensures SendAll(s, ids, w).table[id]
            == if id in ids && Mailable(s.table[id], w) then Stamped(s.table[id], id, w) else s.table[id]
  {
    if ids != [] {
      var front, last := ids[..|ids| - 1], ids[|ids| - 1];
      SendAllRow(s, front, w, id);
      assert ids == front + [last];
      SendOutRow(SendAll(s, front, w), last, w, id);
    }
  }

  lemma SendDueRow(s: State, tenants: set<nat>, w: World, id: nat)
    requires id < |s.table|
    ensures var a := s.table[id];
            SendDue(s, tenants, w).table[id]
            == if IsDue(a, w.now) && a.tenant in tenants && Mailable(a, w) then Stamped(a, id, w) else a
  {
    DueIds(s.table, w.now, tenants, |s.table|);
    SendAllRow(s, Due(s.table, w.now, tenants, |s.table|), w, id);
  }

  lemma {:induction false} SendDueEachRow(s: State, tenants: seq<nat>, w: World, id: nat)
    requires id < |s.table|
    ensures var a := s.table[id];
            SendDueEach(s, tenants, w).table[id]
            == if IsDue(a, w.now) && a.tenant in tenants && Mailable(a, w) then Stamped(a, id, w) else a
  {
    if tenants != [] {
      var front, last := tenants[..|tenants| - 1], tenants[|tenants| - 1];
      SendDueEachRow(s, front, w, id);
      SendDueRow(SendDueEach(s, front, w), {last}, w, id);
      assert tenants == front + [last];
    }
  }

  /**
   A scan sends exactly the announcements that are scheduled for now or earlier, not deleted, and of a
   covered tenant with users; every other row stays as it is.
   */
  lemma ScanSendsTheDue(s: State, legacy: set<nat>, provisioned: seq<nat>, w: World, id: nat)
    requires id < |s.table|
    ensures var a, b := s.table[id], Step(s, Scan(legacy, provisioned), w).0.table[id];
            b == if a.status == Scheduled && !a.deleted && a.scheduledAt.Some? && a.scheduledAt.value <= w.now
                    && (a.tenant in legacy || a.tenant in provisioned) && w.users(a.tenant) != []
                 then Stamped(a, id, w) else a
  {
    SendDueRow(s, legacy, w, id);
    SendDueEachRow(SendDue(s, legacy, w), provisioned, w, id);
  }

  lemma SendOutMails(s: State, id: nat, w: World, m: Mail)
    requires id < |s.table|
    ensures m in SendOut(s, id, w).mails
            <==> m in s.mails || (m.announcement == id && m.user in w.users(s.table[id].tenant))
  {
    var users := w.users(s.table[id].tenant);
    if m.announcement == id && m.user in users {
      SendMailsEverybody(s, id, w, m.user);
    }
  }

  lemma {:induction false} SendAllMails(s: State, ids: seq<nat>, w: World, m: Mail)
    requires Ids(ids, |s.table|)
    ensures m in SendAll(s, ids, w).mails
            <==> m in s.mails || (m.announcement in ids && m.user in w.users(s.table[m.announcement].tenant))
  {
    if ids != [] {
      var front, last := ids[..|ids| - 1], ids[|ids| - 1];
      SendAllMails(s, front, w, m);
      SendAllRow(s, front, w, last);
      SendOutMails(SendAll(s, front, w), last, w, m);
      assert ids == front + [last];
    }
  }

  /** The announcement is due, and its tenant is among those of the round. */
  predicate IsCovered(s: State, id: nat, tenants: set<nat>, w: World) {
    id < |s.table| && IsDue(s.table[id], w.now) && s.table[id].tenant in tenants
  }

  lemma SendDueMails(s: State, tenants: set<nat>, w: World, m: Mail)
    ensures m in SendDue(s, tenants, w).mails
            <==> m in s.mails
                 || (IsCovered(s, m.announcement, tenants, w) && m.user in w.users(s.table[m.announcement].tenant))
  {
    DueIds(s.table, w.now, tenants, |s.table|);
    SendAllMails(s, Due(s.table, w.now, tenants, |s.table|), w, m);
  }

  lemma {:induction false} SendDueEachMails(s: State, tenants: seq<nat>, w: World, m: Mail)
    ensures m in SendDueEach(s, tenants, w).mails
            <==> m in s.mails
                 || (IsCovered(s, m.announcement, (set t | t in tenants), w) && m.user in w.users(s.table[m.announcement].tenant))
  {
    if tenants != [] {
      var front, last := tenants[..|tenants| - 1], tenants[|tenants| - 1];
      SendDueEachMails(s, front, w, m);
      SendDueMails(SendDueEach(s, front, w), {last}, w, m);
      assert tenants == front + [last];
      if m.announcement < |s.table| {
        SendDueEachRow(s, front, w, m.announcement);
      }
    }
  }

  /** And it mails exactly the users of those tenants about exactly those announcements. */
  lemma ScanMailsTheDue(s: State, legacy: set<nat>, provisioned: seq<nat>, w: World, m: Mail)
    ensures m in Step(s, Scan(legacy, provisioned), w).0.mails
            <==> m in s.mails
                 || (IsCovered(s, m.announcement, legacy + (set t | t in provisioned), w)
                     && m.user in w.users(s.table[m.announcement].tenant))
  {
    SendDueMails(s, legacy, w, m);
    SendDueEachMails(SendDue(s, legacy, w), provisioned, w, m);
    if m.announcement < |s.table| {
      SendDueRow(s, legacy, w, m.announcement);
    }
  }

  /** No announcement of these tenants is left due, unless its tenant has no users. */
  ghost predicate Cleared(s: State, tenants: set<nat>, w: World) {
    forall id :: 0 <= id < |s.table| && s.table[id].tenant in tenants && IsDue(s.table[id], w.now) ==>
                   w.users(s.table[id].tenant) == []
  }

  lemma {:induction false} SendAllSends(s: State, ids: seq<nat>, w: World, id: nat)
    requires Ids(ids, |s.table|) && id < |s.table|
    ensures var a, b := s.table[id], SendAll(s, ids, w).table[id];
            && b.tenant == a.tenant && (IsDue(b, w.now) ==> IsDue(a, w.now))
            && (id in ids && w.users(a.tenant) != [] ==> b.status == Sent)
  {
    if ids != [] {
      SendAllSends(s, ids[..|ids| - 1], w, id);
      assert ids == ids[..|ids| - 1] + [ids[|ids| - 1]];
    }
  }

  /** What is cleared stays cleared, and the tenants of the pass become cleared. */
  lemma SendDueClears(s: State, tenants: set<nat>, cleared: set<nat>, w: World)
    requires Cleared(s, cleared, w)
    ensures Cleared(SendDue(s, tenants, w), cleared + tenants, w)
  {
    var r := SendDue(s, tenants, w);
    DueIds(s.table, w.now, tenants, |s.table|);
    forall id | 0 <= id < |r.table| && r.table[id].tenant in cleared + tenants && IsDue(r.table[id], w.now)
      ensures w.users(r.table[id].tenant) == []
    {
      SendAllSends(s, Due(s.table, w.now, tenants, |s.table|), w, id);
    }
  }

  lemma {:induction false} SendDueEachClears(s: State, tenants: seq<nat>, cleared: set<nat>, w: World)
    requires Cleared(s, cleared, w)
    ensures Cleared(SendDueEach(s, tenants, w), cleared + (set t | t in tenants), w)
  {
    if tenants == [] {
      assert cleared + (set t | t in tenants) == cleared;
    } else {
      var front, last := tenants[..|tenants| - 1], tenants[|tenants| - 1];
      SendDueEachClears(s, front, cleared, w);
      SendDueClears(SendDueEach(s, front, w), {last}, cleared + (set t | t in front), w);
      assert tenants == front + [last];
      assert cleared + (set t | t in tenants) == cleared + (set t | t in front) + {last};
    }
  }

  /** After a scan no due announcement is left in any tenant it covers that has users. */
  lemma ScanClears(s: State, legacy: set<nat>, provisioned: seq<nat>, w: World)
    ensures Cleared(Step(s, Scan(legacy, provisioned), w).0, legacy + (set t | t in provisioned), w)
  {
    SendDueClears(s, legacy, {}, w);
    assert {} + legacy == legacy;
    SendDueEachClears(SendDue(s, legacy, w), provisioned, legacy, w);
  }

  /** A request that gives a row a new schedule, or takes its schedule away. */
  predicate Reschedules(s: State, op: Op, id: nat) {
    op.Update? && op.id == id && op.schedule.Some? && Visible(s.table, op.tenant, id)
  }

  predicate CancelledIn(s: State, id: nat) {
    id < |s.table| && s.table[id].status == Cancelled
  }

  lemma CancelledStep(s: State, op: Op, w: World, id: nat)
    requires CancelledIn(s, id)
    ensures CancelledIn(Step(s, op, w).0, id) <==> !Reschedules(s, op, id)
  {
    if op.Scan? {
      SendDueFrame(s, op.legacy, w, id);
      SendDueEachFrame(SendDue(s, op.legacy, w), op.provisioned, w, id);
    }
  }

  ghost predicate CancelledThroughout(reqs: seq<(Op, World)>, n: nat, k: nat, id: nat)
    requires n <= k <= |reqs|
  {
    forall m: nat :: n <= m <= k ==> CancelledAt(reqs, m, id)
  }

  ghost predicate RescheduledWithin(reqs: seq<(Op, World)>, n: nat, k: nat, id: nat)
    requires n <= k <= |reqs|
  {
    exists i: nat :: n <= i < k && ReschedulesAt(reqs, i, id)
  }

  predicate ReschedulesAt(reqs: seq<(Op, World)>, i: nat, id: nat)
    requires i < |reqs|
  {
    Reschedules(Run(reqs, i), reqs[i].0, id)
  }

  predicate CancelledAt(reqs: seq<(Op, World)>, m: nat, id: nat)
    requires m <= |reqs|
  {
    CancelledIn(Run(reqs, m), id)
  }

  lemma CancelledNext(reqs: seq<(Op, World)>, i: nat, id: nat)
    requires i < |reqs| && CancelledAt(reqs, i, id)
    ensures CancelledAt(reqs, i + 1, id) <==> !ReschedulesAt(reqs, i, id)
  {
    CancelledStep(Run(reqs, i), reqs[i].0, reqs[i].1, id);
  }

  lemma OneMoreRequest(reqs: seq<(Op, World)>, n: nat, k: nat, id: nat)
    requires n < k <= |reqs|
    requires CancelledThroughout(reqs, n, k - 1, id) <==> !RescheduledWithin(reqs, n, k - 1, id)
    ensures CancelledThroughout(reqs, n, k, id) <==> !RescheduledWithin(reqs, n, k, id)
  {
    assert CancelledThroughout(reqs, n, k, id) <==> CancelledThroughout(reqs, n, k - 1, id) && CancelledAt(reqs, k, id);
    assert RescheduledWithin(reqs, n, k, id) <==> RescheduledWithin(reqs, n, k - 1, id) || ReschedulesAt(reqs, k - 1, id);
    if CancelledThroughout(reqs, n, k - 1, id) {
      assert CancelledAt(reqs, k - 1, id);
      CancelledNext(reqs, k - 1, id);
    }
  }

  /** In every run a cancelled announcement stays cancelled exactly until an update touches its schedule while it is visible. */
  lemma {:induction false} CancelledUntilRescheduled(reqs: seq<(Op, World)>, n: nat, k: nat, id: nat)
    requires n <= k <= |reqs| && CancelledAt(reqs, n, id)
    ensures CancelledThroughout(reqs, n, k, id) <==> !RescheduledWithin(reqs, n, k, id)
    decreases k
  {
    if n < k {
      CancelledUntilRescheduled(reqs, n, k - 1, id);
      OneMoreRequest(reqs, n, k, id);
    }
  }

  /** A row that claims to be sent but has no sending time. */
  predicate ClaimsSent(a: Announcement) {
    a.status == Sent && a.sentAt.None?
  }

  lemma {:induction false} SendAllStamps(s: State, ids: seq<nat>, w: World, id: nat)
    requires Ids(ids, |s.table|) && id < |s.table|
    ensures SendAll(s, ids, w).table[id] == s.table[id] || SendAll(s, ids, w).table[id].sentAt.Some?
  {
    if ids != [] {
      SendAllStamps(s, ids[..|ids| - 1], w, id);
    }
  }

  lemma SendDueStamps(s: State, tenants: set<nat>, w: World, id: nat)
    requires id < |s.table|
    ensures SendDue(s, tenants, w).table[id] == s.table[id] || SendDue(s, tenants, w).table[id].sentAt.Some?
  {
    DueIds(s.table, w.now, tenants, |s.table|);
    SendAllStamps(s, Due(s.table, w.now, tenants, |s.table|), w, id);
  }

  lemma {:induction false} SendDueEachStamps(s: State, tenants: seq<nat>, w: World, id: nat)
    requires id < |s.table|
    ensures SendDueEach(s, tenants, w).table[id] == s.table[id] || SendDueEach(s, tenants, w).table[id].sentAt.Some?
  {
    if tenants != [] {
      SendDueEachStamps(s, tenants[..|tenants| - 1], w, id);
      SendDueStamps(SendDueEach(s, tenants[..|tenants| - 1], w), {tenants[|tenants| - 1]}, w, id);
    }
  }

  /** No later request makes or unmakes such a row. */
  lemma ClaimStays(s: State, op: Op, w: World, id: nat)
    requires id < |s.table|
    ensures id < |Step(s, op, w).0.table| && (ClaimsSent(Step(s, op, w).0.table[id]) <==> ClaimsSent(s.table[id]))
  {
    SentIsFinal(s, op, w, id);
    if op.Scan? {
      SendDueStamps(s, op.legacy, w, id);
      SendDueEachStamps(SendDue(s, op.legacy, w), op.provisioned, w, id);
    }
  }

  /** Request i creates row id. */
  predicate CreatedBy(reqs: seq<(Op, World)>, i: nat, id: nat)
    requires i < |reqs|
  {
    reqs[i].0.Create? && |Run(reqs, i).table| == id
  }

  /**
   In every run a row is sent without a sending time, and so was mailed to nobody and never will be, iff
   it was created to be sent at once for a tenant that had no users.
   */
  lemma {:induction false} ClaimsSentIff(reqs: seq<(Op, World)>, i: nat, n: nat, id: nat)
    requires i < n <= |reqs| && CreatedBy(reqs, i, id)
    ensures id < |Run(reqs, n).table|
    ensures ClaimsSent(Run(reqs, n).table[id]) <==> reqs[i].0.sendNow && reqs[i].1.users(reqs[i].0.tenant) == []
    decreases n
  {
    if i + 1 < n {
      ClaimsSentIff(reqs, i, n - 1, id);
      ClaimStays(Run(reqs, n - 1), reqs[n - 1].0, reqs[n - 1].1, id);
    }
  }

  lemma DueIsSent(a: Announcement, w: World)
    requires IsDue(a, w.now) && w.users(a.tenant) != []
    ensures var s := Step(State([a], []), Scan({a.tenant}, []), w).0;
            |s.table| == 1 && s.table[0].status == Sent
  {
    DueIds([a], w.now, {a.tenant}, 1);
    SendAllSends(State([a], []), Due([a], w.now, {a.tenant}, 1), w, 0);
  }

  /** Cancelling is not final: a cancelled announcement can be rescheduled, and is then sent. */
  lemma CancelledMayStillBeSent(w: World)
    requires w.users(1) != []
    ensures var reqs := [(Create(1, false, None), w), (Cancel(1, 0), w), (Update(1, 0, Some(Some(w.now))), w),
                         (Scan({1}, []), w)];
            && |Run(reqs, 2).table| == 1 && Run(reqs, 2).table[0].status == Cancelled
            && |Run(reqs, 4).table| == 1 && Run(reqs, 4).table[0].status == Sent
  {
    var reqs := [(Create(1, false, None), w), (Cancel(1, 0), w), (Update(1, 0, Some(Some(w.now))), w),
                 (Scan({1}, []), w)];
    var a := Announcement(1, Draft, None, None, 0, false);
    var b := a.(status := Scheduled, scheduledAt := Some(w.now));
    assert Run(reqs, 0) == State([], []);
    assert Run(reqs, 1) == State([a], []);
    assert Run(reqs, 2) == State([a.(status := Cancelled)], []);
    assert Run(reqs, 3) == State([b], []);
    DueIsSent(b, w);
  }
}
