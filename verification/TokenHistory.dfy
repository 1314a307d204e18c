/**
 What the history of requests says about a token: it is good from the request that issued it until a
 request that ends it, and every answer of the service follows from that.
 */
module TokenHistory {
  import opened RefreshTokens

  /** The time passed before request i. */
  function Elapsed(ops: seq<Op>, i: nat): int
    requires i <= |ops|
  {
    if i == 0 then 0 else Elapsed(ops, i - 1) + if ops[i - 1].Tick? then ops[i - 1].ms else 0
  }

  lemma {:induction false} ClockIsElapsed(ops: seq<Op>, i: nat)
    requires i <= |ops|
    ensures At(EMPTY, ops, i).now == Elapsed(ops, i)
  {
    if i > 0 {
      ClockIsElapsed(ops, i - 1);
    }
  }

  /** Request k issues a token to a user, by login or by rotating one of the user's tokens. */
  predicate Issues(ops: seq<Op>, k: nat, jti: nat, user: nat)
    requires k < |ops|
  {
    || ops[k] == Login(user, jti)
    || (ops[k].Refresh? && ops[k].token.Signed? && ops[k].token.jwt.sub == user && OutcomeOf(EMPTY, ops, k) == Rotated(jti))
  }

  /**
   Request m ends a token that was issued to a user at an instant: it refreshes it, logs it out, logs the
   user out everywhere, detects a reuse of one of the user's tokens, or purges the table thirty days on.
   */
  predicate Ends(ops: seq<Op>, m: nat, jti: nat, user: nat, at: int)
    requires m < |ops|
  {
    || RefreshedAt(ops, m, jti)
    || ops[m] == Op.Logout(Names(jti))
    || ops[m] == Op.LogoutAll(user)
    || (ops[m].Refresh? && ops[m].token.Signed? && ops[m].token.jwt.sub == user && OutcomeOf(EMPTY, ops, m) == ReuseDetected)
    || (ops[m].Purge? && at + 2_592_000_000 < Elapsed(ops, m))
  }

  ghost predicate Ended(ops: seq<Op>, k: nat, i: nat, jti: nat, user: nat)
    requires k < i <= |ops|
  {
    exists m: nat :: k < m < i && Ends(ops, m, jti, user, Elapsed(ops, k))
  }

  predicate GoodRow(s: State, jti: nat) {
    jti in s.rows && !s.rows[jti].revoked
  }

  /** An issued token keeps its owner and its instant. */
  lemma IssueStays(s: State, op: Op, jti: nat)
    requires Enabled(s, op) && jti in s.issued
    ensures jti in Step(s, op).0.issued && Step(s, op).0.issued[jti] == s.issued[jti]
  {
  }

  /** The request that issues a token records it, with a good row. */
  lemma IssueRecords(ops: seq<Op>, k: nat, jti: nat, user: nat)
    requires Legal(EMPTY, ops) && k < |ops| && Issues(ops, k, jti, user)
    ensures var t := At(EMPTY, ops, k + 1);
            && GoodRow(t, jti) && t.rows[jti].expiresAt == Elapsed(ops, k) + 604_800_000
            && jti in t.issued && t.issued[jti].user == user && t.issued[jti].at == Elapsed(ops, k)
  {
    ClockIsElapsed(ops, k);
    assert LegalAt(EMPTY, ops, k);
  }

  lemma RefreshEnds(s: State, op: Op, jti: nat)
    requires Inv(s) && Enabled(s, op) && jti in s.issued && op.Refresh?
    ensures var t, outcome := Step(s, op).0, Step(s, op).1;
            GoodRow(t, jti)
            <==> GoodRow(s, jti)
                 && !(op.token.Signed? && op.token.jwt.jti == jti && outcome.Rotated?)
                 && !(op.token.Signed? && op.token.jwt.sub == s.issued[jti].user && outcome == ReuseDetected)
  {
    if op.token.Signed? && Unexpired(op.token.jwt, s.now) {
      VerifiedTokenHasItsRow(s, op.token.jwt.jti);
    }
  }

  lemma PurgeEnds(s: State, jti: nat)
    requires Inv(s) && jti in s.issued
    ensures GoodRow(Step(s, Purge).0, jti) <==> GoodRow(s, jti) && s.issued[jti].at + 2_592_000_000 >= s.now
  {
  }

  /** A request leaves a good token good, unless it ends it. */
  lemma NextRequest(ops: seq<Op>, m: nat, jti: nat)
    requires Legal(EMPTY, ops) && m < |ops| && jti in At(EMPTY, ops, m).issued
    ensures var s := At(EMPTY, ops, m);
            GoodRow(At(EMPTY, ops, m + 1), jti)
            <==> GoodRow(s, jti) && !Ends(ops, m, jti, s.issued[jti].user, s.issued[jti].at)
  {
    var s, op := At(EMPTY, ops, m), ops[m];
    InvHolds(ops, m);
    ClockIsElapsed(ops, m);
    assert LegalAt(EMPTY, ops, m);
    if op.Refresh? {
      RefreshEnds(s, op, jti);
    } else if op.Purge? {
      PurgeEnds(s, jti);
    }
  }

  /** In every run a token is good exactly from the request that issues it until one that ends it. */
  lemma {:induction false} GoodUntilEnded(ops: seq<Op>, k: nat, i: nat, jti: nat, user: nat)
    requires Legal(EMPTY, ops) && k < i <= |ops| && Issues(ops, k, jti, user)
    ensures var t := At(EMPTY, ops, i);
            && jti in t.issued && t.issued[jti].user == user && t.issued[jti].at == Elapsed(ops, k)
            && (GoodRow(t, jti) <==> !Ended(ops, k, i, jti, user))
    decreases i
  {
    if k + 1 == i {
      IssueRecords(ops, k, jti, user);
    } else {
      GoodUntilEnded(ops, k, i - 1, jti, user);
      EndedNext(ops, k, i, jti, user);
      assert LegalAt(EMPTY, ops, i - 1);
      IssueStays(At(EMPTY, ops, i - 1), ops[i - 1], jti);
      NextRequest(ops, i - 1, jti);
    }
  }

  lemma EndedNext(ops: seq<Op>, k: nat, i: nat, jti: nat, user: nat)
    requires k + 1 < i <= |ops|
    ensures Ended(ops, k, i, jti, user)
            <==> Ended(ops, k, i - 1, jti, user) || Ends(ops, i - 1, jti, user, Elapsed(ops, k))
  {
  }

  /** Every token on record was issued by some request. */
  lemma {:induction false} IssuedBySome(ops: seq<Op>, i: nat, jti: nat) returns (k: nat)
    requires Legal(EMPTY, ops) && i <= |ops| && jti in At(EMPTY, ops, i).issued
    ensures k < i && Issues(ops, k, jti, At(EMPTY, ops, i).issued[jti].user)
    decreases i
  {
    var s, op := At(EMPTY, ops, i - 1), ops[i - 1];
    assert LegalAt(EMPTY, ops, i - 1);
    if jti in s.issued {
      k := IssuedBySome(ops, i - 1, jti);
      IssueStays(s, op, jti);
    } else {
      k := i - 1;
    }
  }

  /**
   The answer to every signed refresh token, from the history alone. The token was issued by some request
   k; it is invalid from seven days later on, counted in whole seconds; a token that was ended is answered
   as reuse; and a token that was not, of an eligible owner, is rotated.
   */
  lemma RefreshAnswer(ops: seq<Op>, i: nat) returns (k: nat)
    requires Legal(EMPTY, ops) && i < |ops| && ops[i].Refresh? && ops[i].token.Signed?
    ensures var jwt := ops[i].token.jwt;
            && k < i && Issues(ops, k, jwt.jti, jwt.sub)
            && OutcomeOf(EMPTY, ops, i)
               == if Elapsed(ops, i) / 1000 >= Elapsed(ops, k) / 1000 + 604_800 then Invalid
                  else if Ended(ops, k, i, jwt.jti, jwt.sub) then ReuseDetected
                  else if !ops[i].eligible then NotEligible
                  else Rotated(ops[i].newJti)
  {
    var jwt := ops[i].token.jwt;
    assert LegalAt(EMPTY, ops, i);
    k := IssuedBySome(ops, i, jwt.jti);
    GoodUntilEnded(ops, k, i, jwt.jti, jwt.sub);
    ClockIsElapsed(ops, i);
    RotatesIff(ops, i);
  }

  /** So a token fresh from a rotation rotates again while it verifies, its owner is eligible and nothing has ended it. */
  lemma RotatedTokensRotate(ops: seq<Op>, k: nat, i: nat)
    requires Legal(EMPTY, ops) && k < i < |ops| && OutcomeOf(EMPTY, ops, k).Rotated?
    requires ops[i].Refresh? && ops[i].token.Signed? && ops[i].token.jwt.jti == OutcomeOf(EMPTY, ops, k).newJti
    requires Elapsed(ops, i) - Elapsed(ops, k) < 604_800_000 - 1000 && ops[i].eligible
    requires !Ended(ops, k, i, ops[i].token.jwt.jti, ops[k].token.jwt.sub)
    ensures OutcomeOf(EMPTY, ops, i) == Rotated(ops[i].newJti)
  {
    var jti, user := ops[i].token.jwt.jti, ops[k].token.jwt.sub;
    assert LegalAt(EMPTY, ops, k) && LegalAt(EMPTY, ops, i);
    assert Issues(ops, k, jti, user);
    GoodUntilEnded(ops, k, i, jti, user);
    ClockIsElapsed(ops, i);
    RotatesIff(ops, i);
  }

  /** Issued to the user and not ended by request i. */
  ghost predicate Standing(ops: seq<Op>, i: nat, jti: nat, user: nat)
    requires i <= |ops|
  {
    exists k: nat :: k < i && Issues(ops, k, jti, user) && !Ended(ops, k, i, jti, user)
  }

  ghost predicate StandingAndYoung(ops: seq<Op>, i: nat, jti: nat, user: nat)
    requires i <= |ops|
  {
    exists k: nat :: k < i && Issues(ops, k, jti, user) && !Ended(ops, k, i, jti, user)
                     && Elapsed(ops, i) < Elapsed(ops, k) + 604_800_000
  }

  lemma RowOfIssue(ops: seq<Op>, k: nat, i: nat, jti: nat, user: nat)
    requires Legal(EMPTY, ops) && k < i <= |ops| && Issues(ops, k, jti, user)
    ensures var t := At(EMPTY, ops, i);
            && (jti in LiveOf(t.rows, user) <==> !Ended(ops, k, i, jti, user))
            && (jti in ActiveOf(t.rows, user, t.now)
                <==> !Ended(ops, k, i, jti, user) && Elapsed(ops, i) < Elapsed(ops, k) + 604_800_000)
  {
    GoodUntilEnded(ops, k, i, jti, user);
    ClockIsElapsed(ops, i);
    InvHolds(ops, i);
  }

  /** A rotated token belongs to the login of the token presented; a login starts its own family. */
  lemma FamiliesFollowLogins(ops: seq<Op>, k: nat)
    requires Legal(EMPTY, ops) && k < |ops|
    ensures var s, t := At(EMPTY, ops, k), At(EMPTY, ops, k + 1);
            && (ops[k].Login? ==> ops[k].jti in t.issued && t.issued[ops[k].jti].family == ops[k].jti)
            && (ops[k].Refresh? && ops[k].token.Signed? && OutcomeOf(EMPTY, ops, k).Rotated? ==>
                  && ops[k].token.jwt.jti in s.issued && ops[k].newJti in t.issued
                  && t.issued[ops[k].newJti].family == s.issued[ops[k].token.jwt.jti].family)
  {
    assert LegalAt(EMPTY, ops, k);
  }

  lemma ListAndCount(ops: seq<Op>, i: nat, user: nat)
    requires i < |ops|
    ensures var s := At(EMPTY, ops, i);
            && (ops[i] == ActiveSessions(user) ==> OutcomeOf(EMPTY, ops, i) == Active(ActiveOf(s.rows, user, s.now)))
            && (ops[i] == Op.LogoutAll(user) ==>
                  OutcomeOf(EMPTY, ops, i) == LoggedOutEverywhere(|LiveOf(s.rows, user)|))
  {
  }

  /** Which tokens the session list shows, and which a logout from all devices counts, from the history alone. */
  lemma SessionsAnswer(ops: seq<Op>, i: nat, user: nat, jti: nat)
    requires Legal(EMPTY, ops) && i <= |ops|
    ensures var s := At(EMPTY, ops, i);
            && (jti in ActiveOf(s.rows, user, s.now) <==> StandingAndYoung(ops, i, jti, user))
            && (jti in LiveOf(s.rows, user) <==> Standing(ops, i, jti, user))
  {
    var s := At(EMPTY, ops, i);
    InvHolds(ops, i);
    if jti in LiveOf(s.rows, user) {
      var k := IssuedBySome(ops, i, jti);
      RowOfIssue(ops, k, i, jti, user);
    }
    if Standing(ops, i, jti, user) {
      var k: nat :| k < i && Issues(ops, k, jti, user) && !Ended(ops, k, i, jti, user);
      RowOfIssue(ops, k, i, jti, user);
    }
    if StandingAndYoung(ops, i, jti, user) {
      var k: nat :| k < i && Issues(ops, k, jti, user) && !Ended(ops, k, i, jti, user)
                    && Elapsed(ops, i) < Elapsed(ops, k) + 604_800_000;
      RowOfIssue(ops, k, i, jti, user);
    }
  }
}
