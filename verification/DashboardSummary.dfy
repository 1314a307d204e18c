/** The attendance summary of the dashboard: who was present on a day, and the counts per department. */
module DashboardSummary {
  import opened Options
  import opened AttendanceEvents
  import opened SessionPairing

  /** An employee row: the user it belongs to, and the name of the department, if any. */
  datatype Employee = Employee(user: nat, department: Option<string>)

  /** A check-in counts unless rejected; it shows presence with a later check-out of the same user and date. */
  predicate Shows(checkIn: Event, checkOut: Event, rejected: Event -> bool, dateOf: int -> string) {
    && checkIn.kind == CheckIn && !rejected(checkIn) && checkOut.kind == CheckOut
    && checkOut.user == checkIn.user && checkOut.at > checkIn.at && dateOf(checkOut.at) == dateOf(checkIn.at)
  }

  ghost predicate IsPresent(rows: seq<Event>, rejected: Event -> bool, dateOf: int -> string, user: nat) {
    exists i, o :: i in rows && o in rows && i.user == user && Shows(i, o, rejected, dateOf)
  }

  method PresentUsers(rows: seq<Event>, rejected: Event -> bool, dateOf: int -> string) returns (present: set<nat>)
    ensures forall u :: u in present <==> IsPresent(rows, rejected, dateOf, u)
  {
    var checkIns, checkOuts := Separate(rows);
    OfKindMembers(rows, CheckIn);
    OfKindMembers(rows, CheckOut);
    present := {};
    for n := 0 to |checkIns|
      invariant forall u :: u in present ==> IsPresent(rows, rejected, dateOf, u)
      invariant forall k, o :: 0 <= k < n && o in checkOuts && Shows(checkIns[k], o, rejected, dateOf) ==>
                                 checkIns[k].user in present
    {
      var k := 0;
      while k < |checkOuts| && !Shows(checkIns[n], checkOuts[k], rejected, dateOf)
        invariant 0 <= k <= |checkOuts|
        invariant forall j :: 0 <= j < k ==> !Shows(checkIns[n], checkOuts[j], rejected, dateOf)
      {
        k := k + 1;
      }
      if k < |checkOuts| {
        present := present + {checkIns[n].user};
      }
    }
  }

  function Accepted(ins: seq<Event>, rejected: Event -> bool): seq<Event> {
    if ins == [] then []
    else
      var last := ins[|ins| - 1];
      Accepted(ins[..|ins| - 1], rejected) + if rejected(last) then [] else [last]
  }

  lemma {:induction false} AcceptedMembers(ins: seq<Event>, rejected: Event -> bool)
    ensures forall e :: e in Accepted(ins, rejected) <==> e in ins && !rejected(e)
  {
    if ins != [] {
      AcceptedMembers(ins[..|ins| - 1], rejected);
      assert ins == ins[..|ins| - 1] + [ins[|ins| - 1]];
    }
  }

  lemma {:induction false} AcceptedAscending(ins: seq<Event>, rejected: Event -> bool)
    requires Ascending(ins)
    ensures Ascending(Accepted(ins, rejected))
  {
    if ins != [] {
      var front := ins[..|ins| - 1];
      AcceptedAscending(front, rejected);
      AcceptedMembers(front, rejected);
      forall e | e in Accepted(front, rejected) ensures e.at <= ins[|ins| - 1].at {
        assert e in front;
      }
    }
  }

  lemma {:induction false} RowsAscending(rows: seq<Event>, user: nat)
    requires Ascending(rows)
    ensures Ascending(RowsOf(rows, user))
  {
    if rows != [] {
      var front := rows[..|rows| - 1];
      RowsAscending(front, user);
      RowsOfMembers(front, user);
      forall e | e in RowsOf(front, user) ensures e.at <= rows[|rows| - 1].at {
        assert e in front;
      }
    }
  }

  ghost predicate SomeClosed(sessions: seq<Session>) {
    exists k :: 0 <= k < |sessions| && sessions[k].checkOut.Some?
  }

  lemma OnePairMatches(ins: seq<Event>, outs: seq<Event>, a: nat, b: nat, m: map<nat, nat>)
    requires a < |ins| && b < |outs| && ins[a].at < outs[b].at
    requires forall other :: IsMatching(other, ins, outs) ==> |other| <= |m|
    ensures m != map[]
  {
    assert IsMatching(map[a := b], ins, outs);
    assert |map[a := b]| == 1;
  }

  lemma SomeClosedIffMatched(ins: seq<Event>, outs: seq<Event>, m: map<nat, nat>)
    requires IsMatching(m, ins, outs)
    ensures SomeClosed(seq(|ins|, k requires 0 <= k < |ins| => Session(ins[k], if k in m then Some(outs[m[k]]) else None)))
            <==> m != map[]
  {
    var sessions := seq(|ins|, k requires 0 <= k < |ins| => Session(ins[k], if k in m then Some(outs[m[k]]) else None));
    if m != map[] {
      var k :| k in m;
      assert sessions[k].checkOut.Some?;
    }
  }

  /** The greedy pairing closes a session iff some check-out is later than some check-in. */
  lemma ClosesIffLater(ins: seq<Event>, outs: seq<Event>)
    requires Ascending(ins) && Ascending(outs)
    ensures SomeClosed(Sessions(ins, outs)) <==> exists i, o :: i in ins && o in outs && i.at < o.at
  {
    var m := PairingIsMaximum(ins, outs);
    SomeClosedIffMatched(ins, outs, m);
    if i, o :| i in ins && o in outs && i.at < o.at {
      var a: nat :| a < |ins| && ins[a] == i;
      var b: nat :| b < |outs| && outs[b] == o;
      OnePairMatches(ins, outs, a, b, m);
    }
    if k :| k in m {
      assert ins[k] in ins && outs[m[k]] in outs;
    }
  }

  /** On the rows of one day, the dashboard and the listings agree: present means a closed session among those not rejected. */
  lemma PresentIffSessionClosed(rows: seq<Event>, rejected: Event -> bool, dateOf: int -> string, day: string, user: nat)
    requires Ascending(rows) && forall e :: e in rows ==> dateOf(e.at) == day
    ensures IsPresent(rows, rejected, dateOf, user)
            <==> SomeClosed(Sessions(Accepted(OfKind(RowsOf(rows, user), CheckIn), rejected),
                                     OfKind(RowsOf(rows, user), CheckOut)))
  {
    var own := RowsOf(rows, user);
    var ins, outs := Accepted(OfKind(own, CheckIn), rejected), OfKind(own, CheckOut);
    RowsAscending(rows, user);
    OfKindAscending(own, CheckIn);
    OfKindAscending(own, CheckOut);
    AcceptedAscending(OfKind(own, CheckIn), rejected);
    ClosesIffLater(ins, outs);
    RowsOfMembers(rows, user);
    OfKindMembers(own, CheckIn);
    OfKindMembers(own, CheckOut);
    AcceptedMembers(OfKind(own, CheckIn), rejected);
    if i, o :| i in rows && o in rows && i.user == user && Shows(i, o, rejected, dateOf) {
      assert i in ins && o in outs && i.at < o.at;
    }
    if i, o :| i in ins && o in outs && i.at < o.at {
      assert i in rows && o in rows && i.user == user && Shows(i, o, rejected, dateOf);
    }
  }

  function DepartmentName(e: Employee): string {
    if e.department.Some? && e.department.value != "" then e.department.value else "Unassigned"
  }

  datatype Status = Present | Absent | OnLeave

  /** Leave outweighs presence. */
  function StatusOf(e: Employee, present: set<nat>, onLeave: set<nat>): Status {
    if e.user in onLeave then OnLeave else if e.user in present then Present else Absent
  }

  /** What is counted: every employee, or those of one status. */
  datatype Column = Everyone | Only(status: Status)

  predicate Counts(c: Column, e: Employee, present: set<nat>, onLeave: set<nat>) {
    c.Everyone? || StatusOf(e, present, onLeave) == c.status
  }

  function Company(es: seq<Employee>, c: Column, present: set<nat>, onLeave: set<nat>): nat {
    if es == [] then 0
    else
      Company(es[..|es| - 1], c, present, onLeave)
      + if Counts(c, es[|es| - 1], present, onLeave) then 1 else 0
  }

  function InDepartment(es: seq<Employee>, d: string, c: Column, present: set<nat>, onLeave: set<nat>): nat {
    if es == [] then 0
    else
      var last := es[|es| - 1];
      InDepartment(es[..|es| - 1], d, c, present, onLeave)
      + if DepartmentName(last) == d && Counts(c, last, present, onLeave) then 1 else 0
  }

  datatype Entry = Entry(total: nat, present: nat, absent: nat)

  function Value(e: Entry, c: Column): int {
    match c
    case Everyone => e.total
    case Only(Present) => e.present
    case Only(Absent) => e.absent
    case Only(OnLeave) => e.total - e.present - e.absent
  }

  function Departments(es: seq<Employee>): set<string> {
    set i | 0 <= i < |es| :: DepartmentName(es[i])
  }

  ghost predicate IsSummary(m: map<string, Entry>, es: seq<Employee>, present: set<nat>, onLeave: set<nat>) {
    && m.Keys == Departments(es)
    && forall d, c :: d in m ==> Value(m[d], c) == InDepartment(es, d, c, present, onLeave)
  }

  lemma DepartmentsSnoc(es: seq<Employee>, e: Employee)
    ensures Departments(es + [e]) == Departments(es) + {DepartmentName(e)}
  {
    var all := es + [e];
    forall d | d in Departments(es) + {DepartmentName(e)} ensures d in Departments(all) {
      if d in Departments(es) {
        var i :| 0 <= i < |es| && DepartmentName(es[i]) == d;
        assert all[i] == es[i];
      } else {
        assert all[|es|] == e;
      }
    }
  }

  lemma {:induction false} NobodyElsewhere(es: seq<Employee>, d: string, c: Column, present: set<nat>, onLeave: set<nat>)
    requires d !in Departments(es)
    ensures InDepartment(es, d, c, present, onLeave) == 0
  {
    if es != [] {
      var front, last := es[..|es| - 1], es[|es| - 1];
      assert es == front + [last];
      DepartmentsSnoc(front, last);
      NobodyElsewhere(front, d, c, present, onLeave);
    }
  }

  /** The counts of a department after one more employee. */
  function Counted(entry: Entry, status: Status): Entry {
    Entry(entry.total + 1,
          entry.present + (if status == Present then 1 else 0),
          entry.absent + (if status == Absent then 1 else 0))
  }

  lemma SummarySnoc(m: map<string, Entry>, es: seq<Employee>, e: Employee, present: set<nat>, onLeave: set<nat>)
    requires IsSummary(m, es, present, onLeave)
    ensures var d := DepartmentName(e);
            var entry := if d in m then m[d] else Entry(0, 0, 0);
            IsSummary(m[d := Counted(entry, StatusOf(e, present, onLeave))], es + [e], present, onLeave)
  {
    var name := DepartmentName(e);
    var entry := if name in m then m[name] else Entry(0, 0, 0);
    var next := m[name := Counted(entry, StatusOf(e, present, onLeave))];
    DepartmentsSnoc(es, e);
    assert (es + [e])[..|es|] == es;
    forall d, c | d in next ensures Value(next[d], c) == InDepartment(es + [e], d, c, present, onLeave) {
      if d !in m {
        NobodyElsewhere(es, d, c, present, onLeave);
      }
    }
  }

  /** The employee belongs to a department of this name; without one, or without a name, it is listed as unassigned. */
  predicate ListedUnder(e: Employee, d: string) {
    || (e.department == Some(d) && d != "")
    || ((e.department.None? || e.department == Some("")) && d == "Unassigned")
  }

  /** The employees of a department among the first n; of them, those present and not on leave, and those neither present nor on leave. */
  function TotalOf(es: seq<Employee>, n: nat, d: string): set<nat>
    requires n <= |es|
  {
    set i: nat | i < n && ListedUnder(es[i], d)
  }

  function PresentOf(es: seq<Employee>, n: nat, d: string, present: set<nat>, onLeave: set<nat>): set<nat>
    requires n <= |es|
  {
    set i: nat | i < n && ListedUnder(es[i], d) && es[i].user in present && es[i].user !in onLeave
  }

  function AbsentOf(es: seq<Employee>, n: nat, d: string, present: set<nat>, onLeave: set<nat>): set<nat>
    requires n <= |es|
  {
    set i: nat | i < n && ListedUnder(es[i], d) && es[i].user !in present && es[i].user !in onLeave
  }

  /** Employee i is counted under the department. */
  predicate IsCountedUnder(es: seq<Employee>, i: nat, d: string, c: Column, present: set<nat>, onLeave: set<nat>)
    requires i < |es|
  {
    DepartmentName(es[i]) == d && Counts(c, es[i], present, onLeave)
  }

  function SetOf(es: seq<Employee>, n: nat, d: string, c: Column, present: set<nat>, onLeave: set<nat>): set<nat>
    requires n <= |es|
  {
    set i: nat | i < n && IsCountedUnder(es, i, d, c, present, onLeave)
  }

  lemma SetOfNext(es: seq<Employee>, n: nat, d: string, c: Column, present: set<nat>, onLeave: set<nat>)
    requires n < |es|
    ensures |SetOf(es, n + 1, d, c, present, onLeave)|
            == |SetOf(es, n, d, c, present, onLeave)| + if IsCountedUnder(es, n, d, c, present, onLeave) then 1 else 0
  {
    var before := SetOf(es, n, d, c, present, onLeave);
    assert SetOf(es, n + 1, d, c, present, onLeave)
           == if IsCountedUnder(es, n, d, c, present, onLeave) then before + {n} else before;
  }

  lemma InDepartmentNext(es: seq<Employee>, n: nat, d: string, c: Column, present: set<nat>, onLeave: set<nat>)
    requires n < |es|
    ensures InDepartment(es[..n + 1], d, c, present, onLeave)
            == InDepartment(es[..n], d, c, present, onLeave) + if IsCountedUnder(es, n, d, c, present, onLeave) then 1 else 0
  {
    assert es[..n + 1][..n] == es[..n];
  }

  lemma {:induction false} InDepartmentCounts(es: seq<Employee>, n: nat, d: string, c: Column, present: set<nat>, onLeave: set<nat>)
    requires n <= |es|
    ensures InDepartment(es[..n], d, c, present, onLeave) == |SetOf(es, n, d, c, present, onLeave)|
  {
    if n == 0 {
      assert SetOf(es, n, d, c, present, onLeave) == {};
    } else {
      InDepartmentCounts(es, n - 1, d, c, present, onLeave);
      SetOfNext(es, n - 1, d, c, present, onLeave);
      InDepartmentNext(es, n - 1, d, c, present, onLeave);
    }
  }

  lemma ListedUnderName(e: Employee, d: string)
    ensures ListedUnder(e, d) <==> DepartmentName(e) == d
  {
  }

  /** Under every department the entry holds the sizes of these sets, and every department that is listed has one. */
  ghost predicate IsCounted(m: map<string, Entry>, es: seq<Employee>, present: set<nat>, onLeave: set<nat>) {
    && (forall d :: d in m <==> exists i :: 0 <= i < |es| && ListedUnder(es[i], d))
    && forall d :: d in m ==> m[d] == Entry(|TotalOf(es, |es|, d)|, |PresentOf(es, |es|, d, present, onLeave)|,
                                            |AbsentOf(es, |es|, d, present, onLeave)|)
  }

  lemma EntryCounts(m: map<string, Entry>, es: seq<Employee>, present: set<nat>, onLeave: set<nat>, d: string)
    requires IsSummary(m, es, present, onLeave) && d in m
    ensures m[d] == Entry(|TotalOf(es, |es|, d)|, |PresentOf(es, |es|, d, present, onLeave)|,
                          |AbsentOf(es, |es|, d, present, onLeave)|)
  {
    assert es[..|es|] == es;
    InDepartmentCounts(es, |es|, d, Everyone, present, onLeave);
    InDepartmentCounts(es, |es|, d, Only(Present), present, onLeave);
    InDepartmentCounts(es, |es|, d, Only(Absent), present, onLeave);
    forall i: nat | i < |es| ensures ListedUnder(es[i], d) <==> DepartmentName(es[i]) == d {
      ListedUnderName(es[i], d);
    }
    assert SetOf(es, |es|, d, Everyone, present, onLeave) == TotalOf(es, |es|, d);
    assert SetOf(es, |es|, d, Only(Present), present, onLeave) == PresentOf(es, |es|, d, present, onLeave);
    assert SetOf(es, |es|, d, Only(Absent), present, onLeave) == AbsentOf(es, |es|, d, present, onLeave);
    assert Value(m[d], Everyone) == m[d].total && Value(m[d], Only(Present)) == m[d].present
           && Value(m[d], Only(Absent)) == m[d].absent;
  }

  lemma SummaryCounts(m: map<string, Entry>, es: seq<Employee>, present: set<nat>, onLeave: set<nat>)
    requires IsSummary(m, es, present, onLeave)
    ensures IsCounted(m, es, present, onLeave)
  {
    forall d ensures d in m <==> exists i :: 0 <= i < |es| && ListedUnder(es[i], d) {
      if d in m {
        var i :| 0 <= i < |es| && DepartmentName(es[i]) == d;
        ListedUnderName(es[i], d);
      }
      if i :| 0 <= i < |es| && ListedUnder(es[i], d) {
        ListedUnderName(es[i], d);
      }
    }
    forall d | d in m
      ensures m[d] == Entry(|TotalOf(es, |es|, d)|, |PresentOf(es, |es|, d, present, onLeave)|,
                            |AbsentOf(es, |es|, d, present, onLeave)|)
    {
      EntryCounts(m, es, present, onLeave, d);
    }
  }

  method GetAttendanceSummary(employees: seq<Employee>, present: set<nat>, onLeave: set<nat>)
    returns (summary: map<string, Entry>)
    ensures IsSummary(summary, employees, present, onLeave)
    ensures IsCounted(summary, employees, present, onLeave)
  {
    summary := map[];
    for n := 0 to |employees|
      invariant IsSummary(summary, employees[..n], present, onLeave)
    {
      var emp := employees[n];
      SummarySnoc(summary, employees[..n], emp, present, onLeave);
      assert employees[..n + 1] == employees[..n] + [emp];
      var name := DepartmentName(emp);
      var entry := if name in summary then summary[name] else Entry(0, 0, 0);
      entry := entry.(total := entry.total + 1);
      var isOnLeave := emp.user in onLeave;
      var isPresent := emp.user in present && !isOnLeave;
      if isPresent {
        entry := entry.(present := entry.present + 1);
      } else if !isOnLeave {
        entry := entry.(absent := entry.absent + 1);
      }
      summary := summary[name := entry];
    }
    assert employees[..|employees|] == employees;
    SummaryCounts(summary, employees, present, onLeave);
  }

  ghost function Pick(keys: set<string>): (k: string)
    requires keys != {}
    ensures k in keys
  {
    var k :| k in keys;
    k
  }

  /** The sum of a column over a set of departments. */
  ghost function SumOver(keys: set<string>, m: map<string, Entry>, c: Column): int
    requires keys <= m.Keys
  {
    if keys == {} then 0 else Value(m[Pick(keys)], c) + SumOver(keys - {Pick(keys)}, m, c)
  }

  ghost function HeadsIn(keys: set<string>, es: seq<Employee>, c: Column, present: set<nat>, onLeave: set<nat>): nat {
    if keys == {} then 0
    else
      InDepartment(es, Pick(keys), c, present, onLeave) + HeadsIn(keys - {Pick(keys)}, es, c, present, onLeave)
  }

  lemma {:induction false} HeadsSnoc(keys: set<string>, es: seq<Employee>, e: Employee, c: Column,
                                     present: set<nat>, onLeave: set<nat>)
    ensures HeadsIn(keys, es + [e], c, present, onLeave)
            == HeadsIn(keys, es, c, present, onLeave)
               + if DepartmentName(e) in keys && Counts(c, e, present, onLeave) then 1 else 0
  {
    if keys != {} {
      assert (es + [e])[..|es|] == es;
      HeadsSnoc(keys - {Pick(keys)}, es, e, c, present, onLeave);
    }
  }

  lemma {:induction false} NoHeads(keys: set<string>, c: Column, present: set<nat>, onLeave: set<nat>)
    ensures HeadsIn(keys, [], c, present, onLeave) == 0
  {
    if keys != {} {
      NoHeads(keys - {Pick(keys)}, c, present, onLeave);
    }
  }

  lemma {:induction false} AllHeads(keys: set<string>, es: seq<Employee>, c: Column, present: set<nat>, onLeave: set<nat>)
    requires Departments(es) <= keys
    ensures HeadsIn(keys, es, c, present, onLeave) == Company(es, c, present, onLeave)
  {
    if es == [] {
      NoHeads(keys, c, present, onLeave);
    } else {
      var front, last := es[..|es| - 1], es[|es| - 1];
      assert es == front + [last];
      DepartmentsSnoc(front, last);
      AllHeads(keys, front, c, present, onLeave);
      HeadsSnoc(keys, front, last, c, present, onLeave);
    }
  }

  lemma {:induction false} SumsAreHeads(keys: set<string>, m: map<string, Entry>, es: seq<Employee>, c: Column,
                                        present: set<nat>, onLeave: set<nat>)
    requires keys <= m.Keys && IsSummary(m, es, present, onLeave)
    ensures SumOver(keys, m, c) == HeadsIn(keys, es, c, present, onLeave)
  {
    if keys != {} {
      SumsAreHeads(keys - {Pick(keys)}, m, es, c, present, onLeave);
    }
  }

  lemma {:induction false} CompanySize(es: seq<Employee>, present: set<nat>, onLeave: set<nat>)
    ensures Company(es, Everyone, present, onLeave) == |es|
  {
    if es != [] {
      CompanySize(es[..|es| - 1], present, onLeave);
    }
  }

  /**
   Conservation: each column summed over the departments is its count over the whole company, the totals
   sum to the number of employees, and total less present less absent is exactly who is on leave.
   */
  lemma SummaryConserves(m: map<string, Entry>, es: seq<Employee>, present: set<nat>, onLeave: set<nat>, c: Column)
    requires IsSummary(m, es, present, onLeave)
    ensures SumOver(m.Keys, m, c) == Company(es, c, present, onLeave)
    ensures SumOver(m.Keys, m, Everyone) == |es|
    ensures forall d :: d in m ==> m[d].total == m[d].present + m[d].absent + InDepartment(es, d, Only(OnLeave), present, onLeave)
  {
    SumsAreHeads(m.Keys, m, es, c, present, onLeave);
    AllHeads(m.Keys, es, c, present, onLeave);
    SumsAreHeads(m.Keys, m, es, Everyone, present, onLeave);
    AllHeads(m.Keys, es, Everyone, present, onLeave);
    CompanySize(es, present, onLeave);
    forall d | d in m
      ensures m[d].total == m[d].present + m[d].absent + InDepartment(es, d, Only(OnLeave), present, onLeave)
    {
      assert Value(m[d], Only(OnLeave)) == InDepartment(es, d, Only(OnLeave), present, onLeave);
    }
  }
}
