/**
 The refresh-token protocol: login, rotation, logout, logout from all devices, the nightly purge, and
 the passing of time. Each request is one atomic step on the token table.
 */
module RefreshTokens {
  import opened Clock
  import opened StableSort

  const LIFE: int := 604_800_000
  const RETENTION: int := 2_592_000_000

  /** A row of the token table; instants are in milliseconds. */
  datatype Row = Row(user: nat, createdAt: int, expiresAt: int, revoked: bool)

  /** A signed refresh token; its expiry claim is in whole seconds. */
  datatype Jwt = Jwt(sub: nat, jti: nat, exp: int)

  /** What was signed, for whom, when, and in which login's rotation family. */
  datatype Issue = Issue(user: nat, at: int, family: nat)

  datatype State = State(now: int, rows: map<nat, Row>, issued: map<nat, Issue>)

  /** What a caller may present: nothing, something whose signature or type is wrong, or a signed token. */
  datatype Presented = Missing | Unsigned | Signed(jwt: Jwt)

  /** A token that is only decoded, not verified: any id may be named. */
  datatype Decoded = NoToken | Undecodable | Names(jti: nat)

  /** eligible stands for the checks on the user, the tenant and the employee between lookup and rotation. */
  datatype Op =
    | Login(user: nat, jti: nat)
    | Refresh(token: Presented, newJti: nat, eligible: bool)
    | Logout(decoded: Decoded)
    | LogoutAll(allOf: nat)
    | ActiveSessions(sessionsOf: nat)
    | Purge
    | Tick(ms: nat)

  datatype Outcome =
    | LoggedIn
    | TokenRequired
    | Invalid
    | ReuseDetected
    | Expired
    | NotEligible
    | Rotated(newJti: nat)
    | LoggedOut
    | LoggedOutEverywhere(count: nat)
    | Active(jtis: set<nat>)
    | Quiet

  function JwtOf(jti: nat, i: Issue): Jwt {
    Jwt(i.user, jti, i.at / SECOND + LIFE / SECOND)
  }

  /** The expiry check of the token library, on whole seconds. */
  predicate Unexpired(jwt: Jwt, now: int) {
    now / SECOND < jwt.exp
  }

  function NewRow(user: nat, now: int): Row {
    Row(user, now, now + LIFE, false)
  }

  predicate Stale(r: Row, now: int) {
    (r.revoked || r.expiresAt < now) && r.createdAt < now - RETENTION
  }

  function RevokeOne(rows: map<nat, Row>, jti: nat): map<nat, Row> {
    if jti in rows then rows[jti := rows[jti].(revoked := true)] else rows
  }

  function RevokeAllOf(rows: map<nat, Row>, user: nat): map<nat, Row> {
    map j | j in rows :: if rows[j].user == user then rows[j].(revoked := true) else rows[j]
  }

  function PurgeRows(rows: map<nat, Row>, now: int): map<nat, Row> {
    map j | j in rows && !Stale(rows[j], now) :: rows[j]
  }

  function LiveOf(rows: map<nat, Row>, user: nat): set<nat> {
    set j | j in rows && rows[j].user == user && !rows[j].revoked
  }

  function ActiveOf(rows: map<nat, Row>, user: nat, now: int): set<nat> {
    set j | j in rows && rows[j].user == user && !rows[j].revoked && rows[j].expiresAt > now
  }

  /** A key that sorts newer rows first. */
  function Age(rows: map<nat, Row>): nat -> int {
    (j: nat) => if j in rows then -rows[j].createdAt else 0
  }

  lemma SameMembers(a: seq<nat>, b: seq<nat>)
    requires multiset(a) == multiset(b)
    ensures |a| == |b| && forall j :: j in a <==> j in b
  {
    assert |multiset(a)| == |multiset(b)|;
    assert forall j :: j in a <==> j in multiset(a);
    assert forall j :: j in b <==> j in multiset(b);
  }

  function Ids(jtis: seq<nat>): set<nat> { set j | j in jtis }

  lemma SameIds(jtis: seq<nat>, ids: set<nat>)
    requires forall j :: j in jtis <==> j in ids
    ensures Ids(jtis) == ids
  {
  }

  predicate InAgeOrder(rows: map<nat, Row>, jtis: seq<nat>) {
    forall i, k :: 0 <= i < k < |jtis| && jtis[i] in rows && jtis[k] in rows ==>
                     rows[jtis[i]].createdAt >= rows[jtis[k]].createdAt
  }

  /** Ids ordered by the age of their rows, newest first. */
  function Newest(rows: map<nat, Row>, found: seq<nat>): (r: seq<nat>)
    ensures InAgeOrder(rows, r)
    ensures |r| == |found| && forall j :: j in r <==> j in found
  {
    var r := SortBy(found, Age(rows));
    SameMembers(found, r);
    assert forall i, k :: 0 <= i < k < |r| ==> Age(rows)(r[i]) <= Age(rows)(r[k]);
    r
  }

  /** What presenting a token to the refresh endpoint comes to. */
  function RefreshOutcome(rows: map<nat, Row>, now: int, token: Presented, newJti: nat, eligible: bool): Outcome {
    match token
    case Missing => TokenRequired
    case Unsigned => Invalid
    case Signed(jwt) =>
      if !Unexpired(jwt, now) || jwt.jti !in rows || rows[jwt.jti].user != jwt.sub then Invalid
      else if rows[jwt.jti].revoked then ReuseDetected
      else if rows[jwt.jti].expiresAt < now then Expired
      else if !eligible then NotEligible
      else Rotated(newJti)
  }

  function RefreshRows(rows: map<nat, Row>, now: int, token: Presented, newJti: nat, eligible: bool): map<nat, Row> {
    match RefreshOutcome(rows, now, token, newJti, eligible)
    case ReuseDetected => RevokeAllOf(rows, token.jwt.sub)
    case Expired => RevokeOne(rows, token.jwt.jti)
    case Rotated(_) => RevokeOne(rows, token.jwt.jti)[newJti := NewRow(token.jwt.sub, now)]
    case _ => rows
  }

  function Step(s: State, op: Op): (State, Outcome) {
    match op
    case Login(user, jti) =>
      (s.(rows := s.rows[jti := NewRow(user, s.now)], issued := s.issued[jti := Issue(user, s.now, jti)]), LoggedIn)
    case Refresh(token, newJti, eligible) =>
      var outcome := RefreshOutcome(s.rows, s.now, token, newJti, eligible);
      var rows := RefreshRows(s.rows, s.now, token, newJti, eligible);
      var family := if token.Signed? && token.jwt.jti in s.issued then s.issued[token.jwt.jti].family else newJti;
      (s.(rows := rows,
          issued := if outcome.Rotated? then s.issued[newJti := Issue(token.jwt.sub, s.now, family)] else s.issued),
       outcome)
    case Logout(NoToken) => (s, TokenRequired)
    case Logout(Undecodable) => (s, Invalid)
    case Logout(Names(jti)) => (s.(rows := RevokeOne(s.rows, jti)), LoggedOut)
    case LogoutAll(user) => (s.(rows := RevokeAllOf(s.rows, user)), LoggedOutEverywhere(|LiveOf(s.rows, user)|))
    case ActiveSessions(user) => (s, Active(ActiveOf(s.rows, user, s.now)))
    case Purge => (s.(rows := PurgeRows(s.rows, s.now)), Quiet)
    case Tick(ms) => (s.(now := s.now + ms), Quiet)
  }

  /** New token ids are fresh, and only tokens that were issued carry a good signature. */
  predicate Enabled(s: State, op: Op) {
    match op
    case Login(_, jti) => jti !in s.issued
    case Refresh(token, newJti, _) =>
      && newJti !in s.issued
      && (token.Signed? ==> token.jwt.jti in s.issued && token.jwt == JwtOf(token.jwt.jti, s.issued[token.jwt.jti]))
    case _ => true
  }

  /** What a query returns before it is ordered. */
  method Listed(ids: set<nat>) returns (found: seq<nat>)
    ensures |found| == |ids| && forall j :: j in found <==> j in ids
  {
    var rest := ids;
    found := [];
    while rest != {}
      invariant rest <= ids && |found| + |rest| == |ids|
      invariant forall j :: j in found <==> j in ids - rest
      decreases |rest|
    {
      var j :| j in rest;
      rest := rest - {j};
      found := found + [j];
    }
  }

  /** The service, with the token table as its field; what was signed is only remembered for the proofs. */
  class AuthService {
    var rows: map<nat, Row>
    ghost var issued: map<nat, Issue>

    ghost function StateAt(now: int): State
      reads this
    {
      State(now, rows, issued)
    }

    constructor ()
      ensures rows == map[] && issued == map[]
    {
      rows, issued := map[], map[];
    }

    method CreateUserTokenRecord(user: nat, jti: nat, now: int)
      modifies this
      ensures StateAt(now) == Step(old(StateAt(now)), Login(user, jti)).0
      ensures rows == old(rows)[jti := Row(user, now, now + 604_800_000, false)]
    {
      var expiresAt := now + LIFE;
      rows := rows[jti := Row(user, now, expiresAt, false)];
      issued := issued[jti := Issue(user, now, jti)];
    }

    method RefreshToken(token: Presented, newJti: nat, eligible: bool, now: int) returns (outcome: Outcome)
      requires Enabled(StateAt(now), Refresh(token, newJti, eligible))
      modifies this
      ensures (StateAt(now), outcome) == Step(old(StateAt(now)), Refresh(token, newJti, eligible))
      ensures token.Missing? <==> outcome == TokenRequired
      ensures token.Unsigned? ==> outcome == Invalid
      ensures outcome.Rotated? ==>
                && token.Signed? && token.jwt.jti in old(rows) && newJti in rows
                && rows[newJti] == Row(token.jwt.sub, now, now + 604_800_000, false)
                && rows - {newJti} == (old(rows) - {newJti})[token.jwt.jti := old(rows)[token.jwt.jti].(revoked := true)]
      ensures outcome == ReuseDetected ==>
                && rows.Keys == old(rows).Keys && LiveOf(rows, token.jwt.sub) == {}
                && forall j :: j in rows && rows[j].user != token.jwt.sub ==> rows[j] == old(rows)[j]
      ensures outcome in {TokenRequired, Invalid, NotEligible} ==> rows == old(rows)
    {
      if token.Missing? {
        return TokenRequired;
      }
      if token.Unsigned? || !Unexpired(token.jwt, now) {
        return Invalid;
      }
      var payload := token.jwt;
      if payload.jti !in rows || rows[payload.jti].user != payload.sub {
        return Invalid;
      }
      var tokenRecord := rows[payload.jti];
      if tokenRecord.revoked {
        rows := RevokeAllOf(rows, payload.sub);
        return ReuseDetected;
      }
      if tokenRecord.expiresAt < now {
        rows := rows[payload.jti := tokenRecord.(revoked := true)];
        return Expired;
      }
      if !eligible {
        return NotEligible;
      }
      rows := rows[payload.jti := tokenRecord.(revoked := true)];
      rows := rows[newJti := Row(payload.sub, now, now + LIFE, false)];
      issued := issued[newJti := Issue(payload.sub, now, issued[payload.jti].family)];
      return Rotated(newJti);
    }

    method Logout(token: Decoded, ghost now: int) returns (outcome: Outcome)
      modifies this
      ensures (StateAt(now), outcome) == Step(old(StateAt(now)), Op.Logout(token))
      ensures outcome == match token
                         case NoToken => TokenRequired
                         case Undecodable => Invalid
                         case Names(_) => LoggedOut
      ensures rows.Keys == old(rows).Keys
      ensures forall j :: j in rows ==>
                            rows[j] == if token == Names(j) then old(rows)[j].(revoked := true) else old(rows)[j]
    {
      if token.NoToken? {
        return TokenRequired;
      }
      if token.Undecodable? {
        return Invalid;
      }
      if token.jti in rows && !rows[token.jti].revoked {
        rows := rows[token.jti := rows[token.jti].(revoked := true)];
      }
      assert rows == RevokeOne(old(rows), token.jti);
      return LoggedOut;
    }

    method LogoutAll(user: nat, ghost now: int) returns (revoked: nat)
      modifies this
      ensures (StateAt(now), LoggedOutEverywhere(revoked)) == Step(old(StateAt(now)), Op.LogoutAll(user))
      ensures rows.Keys == old(rows).Keys && LiveOf(rows, user) == {}
      ensures forall j :: j in rows && rows[j].user != user ==> rows[j] == old(rows)[j]
      ensures revoked == |set j | j in rows && rows[j] != old(rows)[j]|
    {
      revoked := |LiveOf(rows, user)|;
      rows := RevokeAllOf(rows, user);
      assert (set j | j in rows && rows[j] != old(rows)[j]) == LiveOf(old(rows), user);
    }

    /** Each session once, newest first. */
    method GetActiveSessions(user: nat, now: int) returns (jtis: seq<nat>)
      ensures Active(Ids(jtis)) == Step(StateAt(now), ActiveSessions(user)).1
      ensures |jtis| == |ActiveOf(rows, user, now)|
      ensures InAgeOrder(rows, jtis)
    {
      var active := set j | j in rows && rows[j].user == user && !rows[j].revoked && rows[j].expiresAt > now;
      var found := Listed(active);
      jtis := Newest(rows, found);
      SameIds(jtis, active);
    }

    method PurgeStaleTokens(now: int)
      modifies this
      ensures StateAt(now) == Step(old(StateAt(now)), Purge).0
      ensures forall j :: j in rows ==> j in old(rows) && rows[j] == old(rows)[j]
      ensures forall j :: j in old(rows) ==> (j !in rows <==> Stale(old(rows)[j], now))
    {
      var cutoff := now - RETENTION;
      rows := map j | j in rows && !((rows[j].revoked || rows[j].expiresAt < now) && rows[j].createdAt < cutoff) :: rows[j];
    }
  }

  /** The invariant of every run that starts from an empty table. */
  ghost predicate Inv(s: State) {
    && (forall j :: j in s.rows ==> j in s.issued && RowFits(s.rows[j], s.issued[j]))
    && (forall j :: j in s.issued ==> s.issued[j].at <= s.now)
    && (forall j {:trigger FamilyOf(s, j)} :: j in s.issued ==> FamilyOf(s, j) in s.issued)
    && (forall j :: j in s.issued && j !in s.rows ==> s.issued[j].at + RETENTION < s.now)
    && OneLivePerFamily(s)
  }

  function FamilyOf(s: State, j: nat): nat
    requires j in s.issued
  {
    s.issued[j].family
  }

  predicate RowFits(r: Row, i: Issue) {
    r.user == i.user && r.createdAt == i.at && r.expiresAt == i.at + LIFE
  }

  predicate Live(s: State, j: nat) {
    j in s.rows && !s.rows[j].revoked && j in s.issued
  }

  /** Each login's rotation family has at most one row that is not revoked. */
  ghost predicate OneLivePerFamily(s: State) {
    forall j, k :: Live(s, j) && Live(s, k) && FamilyOf(s, j) == FamilyOf(s, k) ==> j == k
  }

  const EMPTY: State := State(0, map[], map[])

  /** An issued token that still verifies is younger than its seven days. */
  lemma VerifiesIsYoung(jti: nat, i: Issue, now: int)
    requires Unexpired(JwtOf(jti, i), now)
    ensures now < i.at + LIFE
  {
  }

  /** Purging never removes the row of an issued token that still verifies. */
  lemma VerifiedTokenHasItsRow(s: State, jti: nat)
    requires Inv(s) && jti in s.issued && Unexpired(JwtOf(jti, s.issued[jti]), s.now)
    ensures jti in s.rows && s.rows[jti].user == s.issued[jti].user && s.rows[jti].expiresAt > s.now
  {
    VerifiesIsYoung(jti, s.issued[jti], s.now);
  }

  /** Rows may disappear and may become revoked, but nothing else happens to them. */
  ghost predicate Narrows(rows: map<nat, Row>, rows': map<nat, Row>) {
    forall j :: j in rows' ==> j in rows && (rows'[j] == rows[j] || rows'[j] == rows[j].(revoked := true))
  }

  lemma InvNarrows(s: State, now': int, rows': map<nat, Row>)
    requires Inv(s) && s.now <= now' && Narrows(s.rows, rows')
    requires forall j :: j in s.issued && j !in rows' ==> s.issued[j].at + RETENTION < now'
    ensures Inv(s.(now := now', rows := rows'))
  {
    var s' := s.(now := now', rows := rows');
    forall j | Live(s', j) ensures Live(s, j) && FamilyOf(s', j) == FamilyOf(s, j) {
      assert rows'[j] == s.rows[j];
    }
    forall j | j in s'.issued ensures FamilyOf(s', j) in s'.issued {
      assert FamilyOf(s, j) in s.issued;
    }
  }

  /** A fresh token joins a family in which nothing is live, or starts its own. */
  lemma InvIssues(s: State, jti: nat, user: nat, family: nat)
    requires Inv(s) && jti !in s.issued
    requires family == jti || (family in s.issued && forall k :: Live(s, k) ==> FamilyOf(s, k) != family)
    ensures Inv(s.(rows := s.rows[jti := NewRow(user, s.now)], issued := s.issued[jti := Issue(user, s.now, family)]))
  {
    var s' := s.(rows := s.rows[jti := NewRow(user, s.now)], issued := s.issued[jti := Issue(user, s.now, family)]);
    forall k | k != jti ensures Live(s', k) <==> Live(s, k) {
    }
    forall k | Live(s, k) ensures FamilyOf(s', k) == FamilyOf(s, k) != family {
      assert FamilyOf(s, k) in s.issued;
    }
    forall k | k in s'.issued ensures FamilyOf(s', k) in s'.issued {
      assert k in s.issued ==> FamilyOf(s, k) in s.issued;
    }
  }

  lemma InvRotates(s: State, token: Presented, newJti: nat, eligible: bool)
    requires Inv(s) && Enabled(s, Refresh(token, newJti, eligible))
    requires RefreshOutcome(s.rows, s.now, token, newJti, eligible).Rotated?
    ensures Inv(Step(s, Refresh(token, newJti, eligible)).0)
  {
    var j := token.jwt.jti;
    var revoked := s.(rows := RevokeOne(s.rows, j));
    InvNarrows(s, s.now, revoked.rows);
    forall k | Live(revoked, k) ensures FamilyOf(revoked, k) != FamilyOf(s, j) {
      assert Live(s, k) && Live(s, j) && k != j && FamilyOf(s, k) != FamilyOf(s, j);
    }
    assert FamilyOf(s, j) in s.issued;
    InvIssues(revoked, newJti, token.jwt.sub, s.issued[j].family);
  }

  lemma InvStep(s: State, op: Op)
    requires Inv(s) && Enabled(s, op)
    ensures Inv(Step(s, op).0)
  {
    match op
    case Login(user, jti) => InvIssues(s, jti, user, jti);
    case Refresh(token, newJti, eligible) =>
      if RefreshOutcome(s.rows, s.now, token, newJti, eligible).Rotated? {
        InvRotates(s, token, newJti, eligible);
      } else {
        InvNarrows(s, s.now, RefreshRows(s.rows, s.now, token, newJti, eligible));
      }
    case Logout(Names(jti)) => InvNarrows(s, s.now, RevokeOne(s.rows, jti));
    case Logout(_) =>
    case LogoutAll(user) => InvNarrows(s, s.now, RevokeAllOf(s.rows, user));
    case ActiveSessions(_) =>
    case Purge => InvNarrows(s, s.now, PurgeRows(s.rows, s.now));
    case Tick(ms) => InvNarrows(s, s.now + ms, s.rows);
  }

  /** The state before request i of a run. */
  function At(s: State, ops: seq<Op>, i: nat): State
    requires i <= |ops|
  {
    if i == 0 then s else Step(At(s, ops, i - 1), ops[i - 1]).0
  }

  function OutcomeOf(s: State, ops: seq<Op>, i: nat): Outcome
    requires i < |ops|
  {
    Step(At(s, ops, i), ops[i]).1
  }

  predicate LegalAt(s: State, ops: seq<Op>, i: nat)
    requires i < |ops|
  {
    Enabled(At(s, ops, i), ops[i])
  }

  ghost predicate Legal(s: State, ops: seq<Op>) {
    forall i: nat :: i < |ops| ==> LegalAt(s, ops, i)
  }

  lemma {:induction false} InvHolds(ops: seq<Op>, i: nat)
    requires Legal(EMPTY, ops) && i <= |ops|
    ensures Inv(At(EMPTY, ops, i))
  {
    if i > 0 {
      InvHolds(ops, i - 1);
      assert LegalAt(EMPTY, ops, i - 1);
      InvStep(At(EMPTY, ops, i - 1), ops[i - 1]);
    }
  }

  /** In every reachable state each login's rotation family has at most one row that is not revoked. */
  lemma FamiliesHaveOneLiveRow(ops: seq<Op>, i: nat, j: nat, k: nat)
    requires Legal(EMPTY, ops) && i <= |ops|
    requires var s := At(EMPTY, ops, i); Live(s, j) && Live(s, k) && FamilyOf(s, j) == FamilyOf(s, k)
    ensures j == k
  {
    InvHolds(ops, i);
  }

  /** In every reachable state each issued token that still verifies has its row. */
  lemma VerifiedTokensKeepTheirRows(ops: seq<Op>, i: nat, jti: nat)
    requires Legal(EMPTY, ops) && i <= |ops|
    requires var s := At(EMPTY, ops, i); jti in s.issued && Unexpired(JwtOf(jti, s.issued[jti]), s.now)
    ensures var s := At(EMPTY, ops, i);
            jti in s.rows && s.rows[jti].user == s.issued[jti].user && s.rows[jti].expiresAt > s.now
  {
    InvHolds(ops, i);
    VerifiedTokenHasItsRow(At(EMPTY, ops, i), jti);
  }

  /** A token that was issued and whose row is revoked or gone. */
  predicate Dead(s: State, jti: nat) {
    jti in s.issued && (jti in s.rows ==> s.rows[jti].revoked)
  }

  /** No step brings a token back to life, and no step forgets that a token was issued. */
  lemma DeadStaysDead(s: State, op: Op, jti: nat)
    requires Enabled(s, op) && Dead(s, jti)
    ensures Dead(Step(s, op).0, jti)
  {
  }

  lemma {:induction false} DeadForever(ops: seq<Op>, i: nat, k: nat, jti: nat)
    requires Legal(EMPTY, ops) && i <= k <= |ops|
    requires Dead(At(EMPTY, ops, i), jti)
    ensures Dead(At(EMPTY, ops, k), jti)
    decreases k - i
  {
    if i < k {
      DeadForever(ops, i, k - 1, jti);
      assert LegalAt(EMPTY, ops, k - 1);
      DeadStaysDead(At(EMPTY, ops, k - 1), ops[k - 1], jti);
    }
  }

  /** Request i presents token jti and gets a new pair for it. */
  predicate RefreshedAt(ops: seq<Op>, i: nat, jti: nat)
    requires i < |ops|
  {
    && ops[i].Refresh? && ops[i].token.Signed? && ops[i].token.jwt.jti == jti
    && OutcomeOf(EMPTY, ops, i).Rotated?
  }

  lemma RefreshingKills(ops: seq<Op>, i: nat, jti: nat)
    requires Legal(EMPTY, ops) && i < |ops| && RefreshedAt(ops, i, jti)
    ensures Dead(At(EMPTY, ops, i + 1), jti)
  {
    assert LegalAt(EMPTY, ops, i);
  }

  /** A token is successfully refreshed at most once in a run. */
  lemma SingleUse(ops: seq<Op>, i: nat, k: nat, jti: nat)
    requires Legal(EMPTY, ops) && i < |ops| && k < |ops|
    requires RefreshedAt(ops, i, jti) && RefreshedAt(ops, k, jti)
    ensures i == k
  {
    if i < k {
      RefreshingKills(ops, i, jti);
      DeadForever(ops, i + 1, k, jti);
    } else if k < i {
      RefreshingKills(ops, k, jti);
      DeadForever(ops, k + 1, i, jti);
    }
  }

  /** Presenting a token that was already refreshed is detected for as long as the token verifies. */
  lemma ReplayIsDetected(ops: seq<Op>, i: nat, k: nat, jti: nat)
    requires Legal(EMPTY, ops) && i < k < |ops| && RefreshedAt(ops, i, jti)
    requires ops[k].Refresh? && ops[k].token.Signed? && ops[k].token.jwt.jti == jti
    requires Unexpired(ops[k].token.jwt, At(EMPTY, ops, k).now)
    ensures OutcomeOf(EMPTY, ops, k) == ReuseDetected
  {
    RefreshingKills(ops, i, jti);
    DeadForever(ops, i + 1, k, jti);
    assert LegalAt(EMPTY, ops, k);
    VerifiedTokensKeepTheirRows(ops, k, jti);
  }

  /** After a detected reuse, no token issued to that user before ever refreshes again. */
  lemma ReuseKillsEverySession(ops: seq<Op>, i: nat, k: nat, jti: nat)
    requires Legal(EMPTY, ops) && i < k < |ops|
    requires ops[i].Refresh? && OutcomeOf(EMPTY, ops, i) == ReuseDetected
    requires var s := At(EMPTY, ops, i); jti in s.issued && s.issued[jti].user == ops[i].token.jwt.sub
    ensures !RefreshedAt(ops, k, jti)
  {
    InvHolds(ops, i);
    assert Dead(At(EMPTY, ops, i + 1), jti);
    DeadForever(ops, i + 1, k, jti);
  }

  /** The same holds after a logout from all devices, and after the logout of one token, for that token. */
  lemma LogoutIsFinal(ops: seq<Op>, i: nat, k: nat, jti: nat)
    requires Legal(EMPTY, ops) && i < k < |ops|
    requires var s := At(EMPTY, ops, i);
             && jti in s.issued
             && (ops[i] == Op.Logout(Names(jti)) || ops[i] == Op.LogoutAll(s.issued[jti].user))
    ensures !RefreshedAt(ops, k, jti)
  {
    InvHolds(ops, i);
    assert Dead(At(EMPTY, ops, i + 1), jti);
    DeadForever(ops, i + 1, k, jti);
  }

  /**
   Which presented tokens rotate, in every reachable state: those that verify, are not dead, and whose
   owner is still eligible. In particular the branch for an expired row is never taken.
   */
  lemma RotatesIff(ops: seq<Op>, i: nat)
    requires Legal(EMPTY, ops) && i < |ops| && ops[i].Refresh? && ops[i].token.Signed?
    ensures var s, jwt := At(EMPTY, ops, i), ops[i].token.jwt;
            OutcomeOf(EMPTY, ops, i)
            == if !Unexpired(jwt, s.now) then Invalid
               else if Dead(s, jwt.jti) then ReuseDetected
               else if !ops[i].eligible then NotEligible
               else Rotated(ops[i].newJti)
  {
    var s, jwt := At(EMPTY, ops, i), ops[i].token.jwt;
    assert LegalAt(EMPTY, ops, i);
    if Unexpired(jwt, s.now) {
      VerifiedTokensKeepTheirRows(ops, i, jwt.jti);
    }
  }

  /** The requests among the first n that are not purges. */
  function Kept(ops: seq<Op>, n: nat): seq<Op>
    requires n <= |ops|
  {
    if n == 0 then [] else Kept(ops, n - 1) + if ops[n - 1].Purge? then [] else [ops[n - 1]]
  }

  /** What callers see: every answer, except for the count of a logout from all devices. */
  function Shown(o: Outcome): seq<Outcome> {
    if o.Quiet? then [] else if o.LoggedOutEverywhere? then [LoggedOutEverywhere(0)] else [o]
  }

  function Seen(s: State, ops: seq<Op>, n: nat): seq<Outcome>
    requires n <= |ops|
  {
    if n == 0 then [] else Seen(s, ops, n - 1) + Shown(OutcomeOf(s, ops, n - 1))
  }

  lemma {:induction false} OneMoreRequest(s: State, ops: seq<Op>, op: Op, n: nat)
    requires n <= |ops|
    ensures At(s, ops + [op], n) == At(s, ops, n) && Seen(s, ops + [op], n) == Seen(s, ops, n)
  {
    if n > 0 {
      OneMoreRequest(s, ops, op, n - 1);
      assert (ops + [op])[n - 1] == ops[n - 1];
    }
  }

  /** The table with purges holds some of the rows of the table without, unchanged. */
  ghost predicate SomeRowsOf(s: State, t: State) {
    && s.now == t.now && s.issued == t.issued
    && forall j :: j in s.rows ==> j in t.rows && t.rows[j] == s.rows[j]
  }

  ghost predicate Purged(s: State, t: State) {
    Inv(s) && Inv(t) && SomeRowsOf(s, t)
  }

  lemma PurgedRefresh(s: State, t: State, token: Presented, newJti: nat, eligible: bool)
    requires SomeRowsOf(s, t)
    requires token.Signed? && Unexpired(token.jwt, s.now) ==> token.jwt.jti in s.rows
    ensures var s', t' := Step(s, Refresh(token, newJti, eligible)), Step(t, Refresh(token, newJti, eligible));
            s'.1 == t'.1 && SomeRowsOf(s'.0, t'.0)
  {
  }

  /** A row that a purge removed belongs to a session that is over, so the session lists agree. */
  lemma PurgedSessions(s: State, t: State, user: nat)
    requires Purged(s, t)
    ensures ActiveOf(s.rows, user, s.now) == ActiveOf(t.rows, user, t.now)
  {
    forall j | j in t.rows && t.rows[j].expiresAt > t.now ensures j in s.rows {
      assert j in t.issued;
    }
  }

  lemma PurgedStep(s: State, t: State, op: Op)
    requires Purged(s, t) && Enabled(s, op) && !op.Purge?
    ensures Enabled(t, op) && Shown(Step(s, op).1) == Shown(Step(t, op).1) && SomeRowsOf(Step(s, op).0, Step(t, op).0)
  {
    if op.Refresh? {
      if op.token.Signed? && Unexpired(op.token.jwt, s.now) {
        VerifiedTokenHasItsRow(s, op.token.jwt.jti);
      }
      PurgedRefresh(s, t, op.token, op.newJti, op.eligible);
    } else if op.ActiveSessions? {
      PurgedSessions(s, t, op.sessionsOf);
    }
  }

  lemma LegalSnoc(ops: seq<Op>, op: Op)
    requires Legal(EMPTY, ops) && Enabled(At(EMPTY, ops, |ops|), op)
    ensures Legal(EMPTY, ops + [op])
  {
    forall i: nat | i < |ops| + 1 ensures LegalAt(EMPTY, ops + [op], i) {
      OneMoreRequest(EMPTY, ops, op, i);
      assert i < |ops| ==> LegalAt(EMPTY, ops, i);
    }
  }

  lemma KeptStep(kept: seq<Op>, op: Op)
    ensures At(EMPTY, kept + [op], |kept| + 1) == Step(At(EMPTY, kept, |kept|), op).0
    ensures Seen(EMPTY, kept + [op], |kept| + 1)
            == Seen(EMPTY, kept, |kept|) + Shown(Step(At(EMPTY, kept, |kept|), op).1)
  {
    OneMoreRequest(EMPTY, kept, op, |kept|);
  }

  /** One more request, made to both tables unless it is a purge. */
  lemma BothStep(s: State, t: State, op: Op)
    requires Purged(s, t) && Enabled(s, op)
    ensures if op.Purge? then Purged(Step(s, op).0, t) && Shown(Step(s, op).1) == []
            else Enabled(t, op) && Purged(Step(s, op).0, Step(t, op).0) && Shown(Step(s, op).1) == Shown(Step(t, op).1)
  {
    InvStep(s, op);
    if !op.Purge? {
      PurgedStep(s, t, op);
      InvStep(t, op);
    }
  }

  /** After n requests, a run without purges has given the same answers and holds at least the same rows. */
  ghost predicate SameAnswers(ops: seq<Op>, n: nat, kept: seq<Op>)
    requires n <= |ops|
  {
    && Legal(EMPTY, kept)
    && Seen(EMPTY, kept, |kept|) == Seen(EMPTY, ops, n)
    && Purged(At(EMPTY, ops, n), At(EMPTY, kept, |kept|))
  }

  lemma NoRequestsYet(ops: seq<Op>)
    ensures SameAnswers(ops, 0, [])
  {
  }

  lemma PurgeStep(ops: seq<Op>, n: nat, kept: seq<Op>)
    requires 0 < n <= |ops| && LegalAt(EMPTY, ops, n - 1) && SameAnswers(ops, n - 1, kept) && ops[n - 1].Purge?
    ensures SameAnswers(ops, n, kept)
  {
    BothStep(At(EMPTY, ops, n - 1), At(EMPTY, kept, |kept|), Purge);
  }

  /** The next request of a run, as its state and as what is seen of it. */
  lemma NextOf(ops: seq<Op>, n: nat)
    requires 0 < n <= |ops|
    ensures At(EMPTY, ops, n) == Step(At(EMPTY, ops, n - 1), ops[n - 1]).0
    ensures Seen(EMPTY, ops, n) == Seen(EMPTY, ops, n - 1) + Shown(Step(At(EMPTY, ops, n - 1), ops[n - 1]).1)
  {
  }

  lemma RequestKeepsPurged(ops: seq<Op>, n: nat, kept: seq<Op>, op: Op)
    requires 0 < n <= |ops| && op == ops[n - 1] && !op.Purge? && Enabled(At(EMPTY, ops, n - 1), op)
    requires Purged(At(EMPTY, ops, n - 1), At(EMPTY, kept, |kept|))
    requires Seen(EMPTY, kept, |kept|) == Seen(EMPTY, ops, n - 1)
    ensures Enabled(At(EMPTY, kept, |kept|), op)
    ensures Purged(At(EMPTY, ops, n), At(EMPTY, kept + [op], |kept + [op]|))
    ensures Seen(EMPTY, kept + [op], |kept + [op]|) == Seen(EMPTY, ops, n)
  {
    BothStep(At(EMPTY, ops, n - 1), At(EMPTY, kept, |kept|), op);
    NextOf(ops, n);
    KeptStep(kept, op);
  }

  lemma RequestStep(ops: seq<Op>, n: nat, kept: seq<Op>, op: Op)
    requires 0 < n <= |ops| && LegalAt(EMPTY, ops, n - 1) && SameAnswers(ops, n - 1, kept)
    requires op == ops[n - 1] && !op.Purge?
    ensures SameAnswers(ops, n, kept + [op])
  {
    RequestKeepsPurged(ops, n, kept, op);
    LegalSnoc(kept, op);
  }

  lemma SameAnswersStep(ops: seq<Op>, n: nat, kept: seq<Op>, kept': seq<Op>, op: Op)
    requires 0 < n <= |ops| && LegalAt(EMPTY, ops, n - 1) && SameAnswers(ops, n - 1, kept)
    requires op == ops[n - 1] && kept' == if op.Purge? then kept else kept + [op]
    ensures SameAnswers(ops, n, kept')
  {
    if op.Purge? {
      PurgeStep(ops, n, kept);
    } else {
      RequestStep(ops, n, kept, op);
    }
  }

  /** Erasing the purges from a run leaves a run, and the callers see the same answers. */
  lemma {:induction false} PurgeIsInvisible(ops: seq<Op>, n: nat)
    requires Legal(EMPTY, ops) && n <= |ops|
    ensures SameAnswers(ops, n, Kept(ops, n))
  {
    if n == 0 {
      NoRequestsYet(ops);
    } else {
      PurgeIsInvisible(ops, n - 1);
      assert LegalAt(EMPTY, ops, n - 1);
      SameAnswersStep(ops, n, Kept(ops, n - 1), Kept(ops, n), ops[n - 1]);
    }
  }

  /**
   The count of a logout from all devices is the one answer a purge can change, and it changes exactly
   when a row that was never revoked is old enough to be purged.
   */
  lemma PurgeChangesCountIff(rows: map<nat, Row>, user: nat, now: int)
    ensures |LiveOf(PurgeRows(rows, now), user)| == |LiveOf(rows, user)|
            <==> forall j :: j in LiveOf(rows, user) ==> !Stale(rows[j], now)
  {
    var before, after := LiveOf(rows, user), LiveOf(PurgeRows(rows, now), user);
    assert after <= before;
    assert |before - after| == |before| - |after|;
    if |after| == |before| {
      assert before - after == {};
    }
    if forall j :: j in before ==> !Stale(rows[j], now) {
      assert before == after;
    }
  }

  /** The user's unrevoked rows that a run has purged and its purge-free run still has. */
  function MissingOf(s: State, t: State, user: nat): set<nat> {
    LiveOf(t.rows, user) - s.rows.Keys
  }

  lemma CountsDiffer(s: State, t: State, user: nat)
    requires SomeRowsOf(s, t)
    ensures |LiveOf(t.rows, user)| - |LiveOf(s.rows, user)| == |MissingOf(s, t, user)|
    ensures forall j :: j in MissingOf(s, t, user) ==> t.rows[j].user == user && !t.rows[j].revoked
  {
    assert LiveOf(t.rows, user) == LiveOf(s.rows, user) + MissingOf(s, t, user);
    assert LiveOf(s.rows, user) !! MissingOf(s, t, user);
  }

  /**
   In every run, a logout from all devices counts fewer tokens than it would without the purges so far by
   exactly the user's unrevoked rows they removed; each of those had expired.
   */
  lemma CountFallsShort(ops: seq<Op>, n: nat, user: nat)
    requires Legal(EMPTY, ops) && n < |ops| && ops[n] == Op.LogoutAll(user)
    ensures var s, t := At(EMPTY, ops, n), At(EMPTY, Kept(ops, n), |Kept(ops, n)|);
            && OutcomeOf(EMPTY, ops, n).LoggedOutEverywhere? && Step(t, ops[n]).1.LoggedOutEverywhere?
            && Step(t, ops[n]).1.count - OutcomeOf(EMPTY, ops, n).count == |MissingOf(s, t, user)|
            && forall j :: j in MissingOf(s, t, user) ==> t.rows[j].expiresAt < t.now
  {
    var s, t := At(EMPTY, ops, n), At(EMPTY, Kept(ops, n), |Kept(ops, n)|);
    PurgeIsInvisible(ops, n);
    CountsDiffer(s, t, user);
    assert Inv(s) && Inv(t);
  }

  /** A run in which it does: a session is left to expire and is purged before the user logs out everywhere. */
  lemma PurgeCanChangeCount()
    ensures var login, later, out := Login(1, 1), Tick(31 * DAY), Op.LogoutAll(1);
            && Legal(EMPTY, [login, later, Purge, out])
            && OutcomeOf(EMPTY, [login, later, Purge, out], 3) == LoggedOutEverywhere(0)
            && OutcomeOf(EMPTY, [login, later, out], 2) == LoggedOutEverywhere(1)
  {
    var login, later, out := Login(1, 1), Tick(31 * DAY), Op.LogoutAll(1);
    var ops, kept := [login, later, Purge, out], [login, later, out];
    var s2 := State(31 * DAY, map[1 := NewRow(1, 0)], map[1 := Issue(1, 0, 1)]);
    assert At(EMPTY, ops, 0) == EMPTY == At(EMPTY, kept, 0);
    assert At(EMPTY, ops, 1) == s2.(now := 0) == At(EMPTY, kept, 1);
    assert At(EMPTY, ops, 2) == s2 == At(EMPTY, kept, 2);
    assert LiveOf(s2.rows, 1) == {1};
    assert LiveOf(At(EMPTY, ops, 3).rows, 1) == {};
  }
}
