/**
 The pairing of check-ins with check-outs used by the attendance listings: every check-in, in log
 order, takes the first check-out that is still unused and strictly later, and that check-out is
 removed from the list. The main result is that this is a maximum matching.
 */
module SessionPairing {
  import opened Options
  import opened AttendanceEvents

  datatype Session = Session(checkIn: Event, checkOut: Option<Event>)

  /** Where a search that starts at p meets the first check-out later than t; |outs| if nowhere. */
  function FirstLater(outs: seq<Event>, p: nat, t: int): (j: nat)
    requires p <= |outs|
    ensures p <= j <= |outs|
    decreases |outs| - p
  {
    if p == |outs| || outs[p].at > t then p else FirstLater(outs, p + 1, t)
  }

  lemma {:induction false} FirstLaterFinds(outs: seq<Event>, p: nat, t: int)
    requires p <= |outs|
    ensures forall k :: p <= k < FirstLater(outs, p, t) ==> outs[k].at <= t
    ensures FirstLater(outs, p, t) < |outs| ==> outs[FirstLater(outs, p, t)].at > t
    decreases |outs| - p
  {
    if p < |outs| && outs[p].at <= t {
      FirstLaterFinds(outs, p + 1, t);
    }
  }

  /** A search may start anywhere up to the index it is going to return. */
  lemma {:induction false} SearchFrom(outs: seq<Event>, p: nat, q: nat, t: int)
    requires p <= q <= |outs|
    requires forall k :: p <= k < q ==> outs[k].at <= t
    ensures FirstLater(outs, p, t) == FirstLater(outs, q, t)
    decreases q - p
  {
    if p < q {
      SearchFrom(outs, p + 1, q, t);
    }
  }

  /** The check-ins and the check-outs of a log. */
  method Separate(records: seq<Event>) returns (checkIns: seq<Event>, checkOuts: seq<Event>)
    ensures checkIns == OfKind(records, CheckIn) && checkOuts == OfKind(records, CheckOut)
  {
    checkIns, checkOuts := [], [];
    for n := 0 to |records|
      invariant checkIns == OfKind(records[..n], CheckIn) && checkOuts == OfKind(records[..n], CheckOut)
    {
      OfKindSnoc(records[..n], records[n], CheckIn);
      OfKindSnoc(records[..n], records[n], CheckOut);
      assert records[..n + 1] == records[..n] + [records[n]];
      if records[n].kind == CheckIn {
        checkIns := checkIns + [records[n]];
      } else if records[n].kind == CheckOut {
        checkOuts := checkOuts + [records[n]];
      }
    }
    assert records[..|records|] == records;
  }

  /** k is the first index later than t, or the length if there is none. */
  predicate Found(outs: seq<Event>, t: int, k: nat) {
    && k <= |outs|
    && (forall i :: 0 <= i < k ==> outs[i].at <= t)
    && (k < |outs| ==> outs[k].at > t)
  }

  /** Array search with the predicate "strictly later than t". */
  method FindLater(outs: seq<Event>, t: int) returns (k: nat)
    ensures Found(outs, t, k)
  {
    k := 0;
    while k < |outs| && outs[k].at <= t
      invariant k <= |outs|
      invariant forall i :: 0 <= i < k ==> outs[i].at <= t
    {
      k := k + 1;
    }
  }

  ghost predicate Injective(m: map<nat, nat>) {
    forall i, j :: i in m && j in m && i != j ==> m[i] != m[j]
  }

  /** A matching sends some check-ins, by index, to different and strictly later check-outs. */
  ghost predicate IsMatching(m: map<nat, nat>, ins: seq<Event>, outs: seq<Event>) {
    && (forall i :: i in m ==> i < |ins| && m[i] < |outs| && ins[i].at < outs[m[i]].at)
    && Injective(m)
  }

  ghost predicate NonCrossing(m: map<nat, nat>) {
    forall i, j :: i in m && j in m && i < j ==> m[i] < m[j]
  }

  /** The pairing of check-ins from i on by a pointer that moves forward over the check-outs. */
  function Scan(ins: seq<Event>, outs: seq<Event>, i: nat, p: nat): (m: map<nat, nat>)
    requires i <= |ins| && p <= |outs|
    decreases |ins| - i
  {
    if i == |ins| then map[]
    else
      var j := FirstLater(outs, p, ins[i].at);
      if j < |outs| then Scan(ins, outs, i + 1, j + 1)[i := j] else Scan(ins, outs, i + 1, j)
  }

  lemma {:induction false} ScanStaysAhead(ins: seq<Event>, outs: seq<Event>, i: nat, p: nat)
    requires i <= |ins| && p <= |outs|
    ensures var m := Scan(ins, outs, i, p);
            && (forall k :: k in m ==> i <= k < |ins| && p <= m[k] < |outs| && ins[k].at < outs[m[k]].at)
            && NonCrossing(m)
    decreases |ins| - i
  {
    if i < |ins| {
      var j := FirstLater(outs, p, ins[i].at);
      FirstLaterFinds(outs, p, ins[i].at);
      ScanStaysAhead(ins, outs, i + 1, if j < |outs| then j + 1 else j);
    }
  }

  /** The session the scan gives to check-in k. */
  function SessionAt(ins: seq<Event>, outs: seq<Event>, m: map<nat, nat>, k: nat): Session
    requires k < |ins|
  {
    Session(ins[k], if k in m && m[k] < |outs| then Some(outs[m[k]]) else None)
  }

  /** Passed check-outs are never found again, so the splicing search finds what the pointer finds. */
  lemma {:induction false} SearchSkipsPassed(outs: seq<Event>, p: nat, passed: seq<Event>, t: int)
    requires p <= |outs|
    requires forall i :: 0 <= i < |passed| ==> passed[i].at <= t
    ensures FirstLater(passed + outs[p..], 0, t) == |passed| + FirstLater(outs, p, t) - p
  {
    var left := passed + outs[p..];
    var j := FirstLater(outs, p, t);
    FirstLaterFinds(outs, p, t);
    forall k | 0 <= k < |passed| + j - p ensures left[k].at <= t {
      if k >= |passed| {
        assert left[k] == outs[p + k - |passed|];
      }
    }
    SearchFrom(left, 0, |passed| + j - p, t);
    if j < |outs| {
      assert left[|passed| + j - p] == outs[j];
    }
  }

  /** The sessions of a log: one per check-in, with the check-out the scan found for it. */
  function Sessions(ins: seq<Event>, outs: seq<Event>): seq<Session> {
    var m := Scan(ins, outs, 0, 0);
    seq(|ins|, k requires 0 <= k < |ins| => SessionAt(ins, outs, m, k))
  }

  ghost predicate SameFrom(ins: seq<Event>, outs: seq<Event>, m: map<nat, nat>, m': map<nat, nat>, n: nat) {
    forall k: nat :: n <= k < |ins| ==> SessionAt(ins, outs, m, k) == SessionAt(ins, outs, m', k)
  }

  /** The check-outs left over are the passed ones, none later than check-in n, and those from p on. */
  ghost predicate LeftOver(ins: seq<Event>, outs: seq<Event>, n: nat, p: nat, passed: seq<Event>, left: seq<Event>) {
    && p <= |outs|
    && left == passed + outs[p..]
    && (n < |ins| ==> forall i :: 0 <= i < |passed| ==> passed[i].at <= ins[n].at)
  }

  lemma PassedAreEarlier(outs: seq<Event>, p: nat, j: nat, passed: seq<Event>, t: int)
    requires p <= j <= |outs|
    requires forall k :: p <= k < j ==> outs[k].at <= t
    requires forall i :: 0 <= i < |passed| ==> passed[i].at <= t
    ensures forall i :: 0 <= i < |passed + outs[p..j]| ==> (passed + outs[p..j])[i].at <= t
  {
    var all := passed + outs[p..j];
    forall i | 0 <= i < |all| ensures all[i].at <= t {
      assert i >= |passed| ==> all[i] == outs[p + i - |passed|];
    }
  }

  lemma SpliceParts(outs: seq<Event>, p: nat, j: nat, passed: seq<Event>)
    requires p <= j <= |outs|
    ensures passed + outs[p..] == passed + outs[p..j] + outs[j..]
    ensures j < |outs| ==>
              var left, k := passed + outs[p..], |passed| + j - p;
              left[k] == outs[j] && left[..k] + left[k + 1..] == passed + outs[p..j] + outs[j + 1..]
  {
    assert outs[p..] == outs[p..j] + outs[j..];
    if j < |outs| {
      var left, k := passed + outs[p..], |passed| + j - p;
      assert left[..k] == passed + outs[p..j];
      assert left[k + 1..] == outs[j + 1..];
    }
  }

  lemma SpliceKeepsLeftOver(ins: seq<Event>, outs: seq<Event>, n: nat, p: nat, passed: seq<Event>, left: seq<Event>,
                            k: nat)
    returns (p': nat, passed': seq<Event>, left': seq<Event>)
    requires Ascending(ins) && n < |ins| && LeftOver(ins, outs, n, p, passed, left)
    requires Found(left, ins[n].at, k)
    ensures var j := FirstLater(outs, p, ins[n].at);
            && p' == (if j < |outs| then j + 1 else j)
            && (j < |outs| <==> k < |left|)
            && (j < |outs| ==> left[k] == outs[j])
    ensures left' == if k < |left| then left[..k] + left[k + 1..] else left
    ensures LeftOver(ins, outs, n + 1, p', passed', left')
  {
    var j := FirstLater(outs, p, ins[n].at);
    p', passed' := if j < |outs| then j + 1 else j, passed + outs[p..j];
    left' := if k < |left| then left[..k] + left[k + 1..] else left;
    SearchFrom(left, 0, k, ins[n].at);
    SearchSkipsPassed(outs, p, passed, ins[n].at);
    FirstLaterFinds(outs, p, ins[n].at);
    SpliceParts(outs, p, j, passed);
    PassedAreEarlier(outs, p, j, passed, ins[n].at);
  }

  lemma ScanStep(ins: seq<Event>, outs: seq<Event>, m: map<nat, nat>, n: nat, p: nat)
    requires n < |ins| && p <= |outs|
    requires SameFrom(ins, outs, m, Scan(ins, outs, n, p), n)
    ensures var j := FirstLater(outs, p, ins[n].at);
            && SessionAt(ins, outs, m, n) == Session(ins[n], if j < |outs| then Some(outs[j]) else None)
            && SameFrom(ins, outs, m, Scan(ins, outs, n + 1, if j < |outs| then j + 1 else j), n + 1)
  {
    var j := FirstLater(outs, p, ins[n].at);
    ScanStaysAhead(ins, outs, n + 1, if j < |outs| then j + 1 else j);
    var now, next := Scan(ins, outs, n, p), Scan(ins, outs, n + 1, if j < |outs| then j + 1 else j);
    forall k: nat | n + 1 <= k < |ins| ensures SessionAt(ins, outs, m, k) == SessionAt(ins, outs, next, k) {
      assert SessionAt(ins, outs, m, k) == SessionAt(ins, outs, now, k);
    }
  }

  ghost predicate SoFar(ins: seq<Event>, outs: seq<Event>, m: map<nat, nat>, n: nat, sessions: seq<Session>)
    requires n <= |ins| && |sessions| == n
  {
    forall i: nat :: i < n ==> sessions[i] == SessionAt(ins, outs, m, i)
  }

  /** Before check-in n: the sessions so far are those of m, and m goes on from p over what is left. */
  ghost predicate Paired(ins: seq<Event>, outs: seq<Event>, m: map<nat, nat>, n: nat, p: nat, passed: seq<Event>,
                         left: seq<Event>, sessions: seq<Session>)
  {
    && n <= |ins| && |sessions| == n
    && LeftOver(ins, outs, n, p, passed, left)
    && SameFrom(ins, outs, m, Scan(ins, outs, n, p), n)
    && SoFar(ins, outs, m, n, sessions)
  }

  lemma SoFarNext(ins: seq<Event>, outs: seq<Event>, m: map<nat, nat>, n: nat, sessions: seq<Session>)
    requires n < |ins| && |sessions| == n && SoFar(ins, outs, m, n, sessions)
    ensures SoFar(ins, outs, m, n + 1, sessions + [SessionAt(ins, outs, m, n)])
  {
  }

  lemma PairedNext(ins: seq<Event>, outs: seq<Event>, m: map<nat, nat>, n: nat, p: nat, passed: seq<Event>,
                   left: seq<Event>, sessions: seq<Session>, s: Session)
    requires n < |ins| && p <= |outs| && |sessions| == n
    requires LeftOver(ins, outs, n + 1, p, passed, left)
    requires SameFrom(ins, outs, m, Scan(ins, outs, n + 1, p), n + 1)
    requires SoFar(ins, outs, m, n, sessions) && s == SessionAt(ins, outs, m, n)
    ensures Paired(ins, outs, m, n + 1, p, passed, left, sessions + [s])
  {
    SoFarNext(ins, outs, m, n, sessions);
  }

  lemma ScanGoesOn(ins: seq<Event>, outs: seq<Event>, m: map<nat, nat>, n: nat, p: nat, passed: seq<Event>,
                   left: seq<Event>, sessions: seq<Session>, p': nat)
    requires n < |ins| && Paired(ins, outs, m, n, p, passed, left, sessions)
    requires var j := FirstLater(outs, p, ins[n].at); p' == if j < |outs| then j + 1 else j
    ensures var j := FirstLater(outs, p, ins[n].at);
            SessionAt(ins, outs, m, n) == Session(ins[n], if j < |outs| then Some(outs[j]) else None)
    ensures p' <= |outs| && SameFrom(ins, outs, m, Scan(ins, outs, n + 1, p'), n + 1)
    ensures LeftOver(ins, outs, n, p, passed, left) && SoFar(ins, outs, m, n, sessions)
  {
    ScanStep(ins, outs, m, n, p);
  }

  lemma PairOne(ins: seq<Event>, outs: seq<Event>, m: map<nat, nat>, n: nat, p: nat, passed: seq<Event>,
                left: seq<Event>, sessions: seq<Session>, k: nat)
    returns (p': nat, passed': seq<Event>, left': seq<Event>, s: Session)
    requires Ascending(ins) && n < |ins| && Paired(ins, outs, m, n, p, passed, left, sessions)
    requires Found(left, ins[n].at, k)
    ensures Paired(ins, outs, m, n + 1, p', passed', left', sessions + [s])
    ensures k < |left| ==> left' == left[..k] + left[k + 1..] && s == Session(ins[n], Some(left[k]))
    ensures k == |left| ==> left' == left && s == Session(ins[n], None)
  {
    p', passed', left' := SpliceKeepsLeftOver(ins, outs, n, p, passed, left, k);
    ScanGoesOn(ins, outs, m, n, p, passed, left, sessions, p');
    s := SessionAt(ins, outs, m, n);
    PairedNext(ins, outs, m, n, p', passed', left', sessions, s);
  }

  /** The pairing loop: each check-in searches the check-outs left, and the one it finds is spliced out. */
  method PairSessions(records: seq<Event>) returns (sessions: seq<Session>)
    requires Ascending(records)
    ensures sessions == Sessions(OfKind(records, CheckIn), OfKind(records, CheckOut))
  {
    var checkIns, checkOuts := Separate(records);
    OfKindAscending(records, CheckIn);
    ghost var outs, m := checkOuts, Scan(checkIns, checkOuts, 0, 0);
    ghost var p: nat, passed: seq<Event> := 0, [];
    sessions := [];
    for n := 0 to |checkIns|
      invariant Paired(checkIns, outs, m, n, p, passed, checkOuts, sessions)
    {
      var k := FindLater(checkOuts, checkIns[n].at);
      ghost var left, s;
      p, passed, left, s := PairOne(checkIns, outs, m, n, p, passed, checkOuts, sessions, k);
      if k < |checkOuts| {
        sessions := sessions + [Session(checkIns[n], Some(checkOuts[k]))];
        checkOuts := checkOuts[..k] + checkOuts[k + 1..];
      } else {
        sessions := sessions + [Session(checkIns[n], None)];
      }
    }
  }

  /** The number of pairs any matching is limited to once the check-ins are cut at k. */
  function Cut(ins: seq<Event>, outs: seq<Event>, i: nat, p: nat, k: nat): int
    requires i <= k <= |ins| && p <= |outs|
  {
    k - i + if k < |ins| then |outs| - FirstLater(outs, p, ins[k].at) else 0
  }

  lemma ScanCountsAPair(ins: seq<Event>, outs: seq<Event>, i: nat, p: nat)
    requires i < |ins| && p <= |outs|
    requires FirstLater(outs, p, ins[i].at) < |outs|
    ensures |Scan(ins, outs, i, p)| == 1 + |Scan(ins, outs, i + 1, FirstLater(outs, p, ins[i].at) + 1)|
  {
    var j := FirstLater(outs, p, ins[i].at);
    ScanStaysAhead(ins, outs, i + 1, j + 1);
    var rest := Scan(ins, outs, i + 1, j + 1);
    assert i !in rest;
    assert rest[i := j].Keys == rest.Keys + {i};
  }

  /** One more pair pays for moving the cut of a later check-in past check-out j. */
  lemma CutAfterAPair(ins: seq<Event>, outs: seq<Event>, i: nat, p: nat, j: nat, k: nat) returns (k': nat)
    requires Ascending(ins) && Ascending(outs)
    requires i < k <= |ins| && p <= |outs|
    requires j == FirstLater(outs, p, ins[i].at) && j < |outs|
    ensures i <= k' <= |ins|
    ensures Cut(ins, outs, i, p, k') <= 1 + Cut(ins, outs, i + 1, j + 1, k)
  {
    k' := k;
    FirstLaterFinds(outs, p, ins[i].at);
    if k < |ins| {
      if outs[j].at > ins[k].at {
        k' := i;
        assert j + 1 < |outs| ==> outs[j + 1].at > ins[k].at;
      } else {
        assert ins[i].at <= ins[k].at;
        SearchFrom(outs, p, j + 1, ins[k].at);
      }
    }
  }

  /** Some cut is filled by the scan. */
  lemma {:induction false} ScanFillsACut(ins: seq<Event>, outs: seq<Event>, i: nat, p: nat) returns (k: nat)
    requires Ascending(ins) && Ascending(outs)
    requires i <= |ins| && p <= |outs|
    ensures i <= k <= |ins|
    ensures |Scan(ins, outs, i, p)| >= Cut(ins, outs, i, p, k)
    decreases |ins| - i
  {
    k := i;
    if i < |ins| {
      var j := FirstLater(outs, p, ins[i].at);
      if j < |outs| {
        var k1 := ScanFillsACut(ins, outs, i + 1, j + 1);
        ScanCountsAPair(ins, outs, i, p);
        k := CutAfterAPair(ins, outs, i, p, j, k1);
      }
    }
  }

  lemma SizeWithout(m: map<nat, nat>, k: nat)
    ensures |m| <= |m - {k}| + 1
  {
    assert (m - {k}).Keys == m.Keys - {k};
  }

  lemma {:induction false} ValuesWithin(m: map<nat, nat>, lo: nat, hi: nat)
    requires lo <= hi && Injective(m)
    requires forall i :: i in m ==> lo <= m[i] < hi
    ensures |m| <= hi - lo
    decreases hi - lo
  {
    if lo == hi {
      assert m.Keys == {};
    } else if i: nat :| i in m && m[i] == lo {
      ValuesWithin(m - {i}, lo + 1, hi);
      SizeWithout(m, i);
    } else {
      ValuesWithin(m, lo + 1, hi);
    }
  }

  /** A map that uses at most k keys below k and, above them, only values in [lo, hi). */
  lemma {:induction false} InjectiveSize(m: map<nat, nat>, k: nat, lo: nat, hi: nat)
    requires lo <= hi && Injective(m)
    requires forall i :: i in m ==> i < k || lo <= m[i] < hi
    ensures |m| <= k + (hi - lo)
    decreases k
  {
    if k == 0 {
      ValuesWithin(m, lo, hi);
    } else {
      InjectiveSize(m - {k - 1}, k - 1, lo, hi);
      SizeWithout(m, k - 1);
    }
  }

  /** Every matching stays within every cut. */
  lemma MatchingWithinCut(m: map<nat, nat>, ins: seq<Event>, outs: seq<Event>, k: nat)
    requires Ascending(ins) && IsMatching(m, ins, outs) && k <= |ins|
    ensures |m| <= Cut(ins, outs, 0, 0, k)
  {
    var f := if k < |ins| then FirstLater(outs, 0, ins[k].at) else |outs|;
    if k < |ins| {
      FirstLaterFinds(outs, 0, ins[k].at);
    }
    forall i | i in m && i >= k ensures f <= m[i] < |outs| {
      assert ins[k].at <= ins[i].at;
    }
    InjectiveSize(m, k, f, |outs|);
  }

  /** Check-out x went to a check-in before number k. */
  ghost predicate TakenBefore(m: map<nat, nat>, k: nat, x: nat) {
    exists i: nat :: i < k && i in m && m[i] == x
  }

  lemma TakenInRest(m: map<nat, nat>, rest: map<nat, nat>, k: nat, x: nat)
    requires TakenBefore(rest, k, x) && forall y :: y in rest ==> y in m && m[y] == rest[y]
    ensures TakenBefore(m, k, x)
  {
    var y: nat :| y < k && y in rest && rest[y] == x;
    assert y in m && m[y] == x;
  }

  /** The scan from check-in i: its own check-out, and the scan of the rest. */
  lemma ScanUnfolds(ins: seq<Event>, outs: seq<Event>, i: nat, p: nat)
    requires i < |ins| && p <= |outs|
    ensures var m, j := Scan(ins, outs, i, p), FirstLater(outs, p, ins[i].at);
            var rest := Scan(ins, outs, i + 1, if j < |outs| then j + 1 else j);
            && (i in m <==> j < |outs|) && (i in m ==> m[i] == j)
            && (forall y :: y in rest ==> y in m && m[y] == rest[y])
            && (forall y :: y in m && y != i ==> y in rest)
  {
    var j := FirstLater(outs, p, ins[i].at);
    ScanStaysAhead(ins, outs, i + 1, if j < |outs| then j + 1 else j);
  }

  lemma NotPassed(outs: seq<Event>, p: nat, t: int, x: nat)
    requires p <= x < |outs| && t < outs[x].at
    ensures FirstLater(outs, p, t) <= x
  {
    FirstLaterFinds(outs, p, t);
  }

  /** Among the check-outs from p on, check-in k takes the first that is later and not taken, and goes without only if there is none. */
  lemma {:induction false} ScanTakesFirst(ins: seq<Event>, outs: seq<Event>, i: nat, p: nat, k: nat, x: nat)
    requires Ascending(ins) && i <= k < |ins| && p <= x < |outs|
    requires ins[k].at < outs[x].at && (k in Scan(ins, outs, i, p) ==> x < Scan(ins, outs, i, p)[k])
    ensures TakenBefore(Scan(ins, outs, i, p), k, x)
    decreases |ins| - i
  {
    var m, j := Scan(ins, outs, i, p), FirstLater(outs, p, ins[i].at);
    var next := if j < |outs| then j + 1 else j;
    assert ins[i].at <= ins[k].at;
    NotPassed(outs, p, ins[i].at, x);
    ScanUnfolds(ins, outs, i, p);
    if x == j {
      assert i in m && m[i] == x && i < k;
    } else {
      ScanTakesFirst(ins, outs, i + 1, next, k, x);
      TakenInRest(m, Scan(ins, outs, i + 1, next), k, x);
    }
  }

  /** Check-in k was given neither check-out x, which is later, nor an earlier one. */
  ghost predicate PassedOver(m: map<nat, nat>, ins: seq<Event>, outs: seq<Event>, k: nat, x: nat) {
    k < |ins| && x < |outs| && ins[k].at < outs[x].at && (k in m ==> x < m[k])
  }

  /** Every check-in takes the first later check-out that no earlier check-in took. */
  ghost predicate IsGreedy(m: map<nat, nat>, ins: seq<Event>, outs: seq<Event>) {
    forall k: nat, x: nat :: PassedOver(m, ins, outs, k, x) ==> TakenBefore(m, k, x)
  }

  /**
   The pairing of a time-sorted log is a non-crossing matching, no matching has more pairs, and every
   check-in has the first later check-out that was left for it.
   */
  lemma PairingIsMaximum(ins: seq<Event>, outs: seq<Event>) returns (m: map<nat, nat>)
    requires Ascending(ins) && Ascending(outs)
    ensures IsMatching(m, ins, outs) && NonCrossing(m) && IsGreedy(m, ins, outs)
    ensures Sessions(ins, outs)
            == seq(|ins|, k requires 0 <= k < |ins| => Session(ins[k], if k in m then Some(outs[m[k]]) else None))
    ensures forall other :: IsMatching(other, ins, outs) ==> |other| <= |m|
  {
    m := Scan(ins, outs, 0, 0);
    ScanStaysAhead(ins, outs, 0, 0);
    forall k: nat, x: nat | PassedOver(m, ins, outs, k, x) ensures TakenBefore(m, k, x) {
      ScanTakesFirst(ins, outs, 0, 0, k, x);
    }
    var k := ScanFillsACut(ins, outs, 0, 0);
    forall other | IsMatching(other, ins, outs) ensures |other| <= |m| {
      MatchingWithinCut(other, ins, outs, k);
    }
  }
}
