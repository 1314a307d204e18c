/**
 The login lockout: failed password comparisons are counted on the first account of an email address,
 and from the fifth on each of them closes the address for fifteen minutes.
 */
module LoginLockout {
  import opened Options

  const MAX_ATTEMPTS: nat := 5
  const LOCKOUT: int := 900_000

  datatype Account = Account(failed: nat, lockedUntil: Option<int>, emailVerified: bool)

  datatype Outcome =
    | NoAccount
    | Blocked
    | WrongPassword(attempt: nat, locked: bool)
    | Unverified
    | Accepted(account: nat)

  /** One login request: when, and which of the accounts of the address the password fits. */
  datatype Attempt = Attempt(now: int, fits: seq<bool>)

  predicate Locked(a: Account, now: int) {
    a.lockedUntil.Some? && a.lockedUntil.value > now
  }

  /** The first account the password fits, or their number. */
  function FirstFit(fits: seq<bool>, i: nat): (k: nat)
    requires i <= |fits|
    ensures i <= k <= |fits|
    ensures forall j :: i <= j < k ==> !fits[j]
    ensures k < |fits| ==> fits[k]
    decreases |fits| - i
  {
    if i == |fits| || fits[i] then i else FirstFit(fits, i + 1)
  }

  function Fail(a: Account, now: int): Account {
    var n := a.failed + 1;
    if n >= MAX_ATTEMPTS then a.(failed := n, lockedUntil := Some(now + LOCKOUT)) else a.(failed := n)
  }

  function Step(accounts: seq<Account>, t: Attempt): (seq<Account>, Outcome)
    requires |t.fits| == |accounts|
  {
    var k := FirstFit(t.fits, 0);
    if accounts == [] then (accounts, NoAccount)
    else if Locked(accounts[0], t.now) then (accounts, Blocked)
    else if k == |accounts| then
      var failed := Fail(accounts[0], t.now);
      (accounts[0 := failed], WrongPassword(failed.failed, failed.failed >= MAX_ATTEMPTS))
    else if !accounts[k].emailVerified then (accounts, Unverified)
    else (accounts[k := accounts[k].(failed := 0, lockedUntil := None)], Accepted(k))
  }

  class LoginGuard {
    /** The accounts registered under one email address, in the order the table returns them. */
    var accounts: seq<Account>

    constructor (verified: seq<bool>)
      ensures |accounts| == |verified|
      ensures forall i :: 0 <= i < |accounts| ==> accounts[i] == Account(0, None, verified[i])
    {
      accounts := seq(|verified|, i requires 0 <= i < |verified| => Account(0, None, verified[i]));
    }

    /** Password check with lockout; compared is the number of password comparisons made. */
    method ValidateUser(t: Attempt) returns (outcome: Outcome, compared: nat)
      requires |t.fits| == |accounts|
      modifies this
      ensures (accounts, outcome) == Step(old(accounts), t)
      ensures |accounts| > 0 && Locked(old(accounts)[0], t.now) ==> compared == 0
      ensures outcome.WrongPassword? ==> compared == |accounts|
      ensures outcome.Accepted? ==>
                && outcome.account < |accounts|
                && accounts[outcome.account] == old(accounts)[outcome.account].(failed := 0, lockedUntil := None)
                && forall k :: 0 <= k < |accounts| && k != outcome.account ==> accounts[k] == old(accounts)[k]
      ensures outcome.WrongPassword? ==>
                && accounts[0].failed == old(accounts)[0].failed + 1 == outcome.attempt
                && accounts[0].lockedUntil
                   == (if outcome.attempt >= 5 then Some(t.now + 900_000) else old(accounts)[0].lockedUntil)
                && accounts[1..] == old(accounts)[1..]
      ensures !outcome.Accepted? && !outcome.WrongPassword? ==> accounts == old(accounts)
      ensures |accounts| == |old(accounts)|
    {
      compared := 0;
      if |accounts| == 0 {
        return NoAccount, compared;
      }
      var candidate := accounts[0];
      if candidate.lockedUntil.Some? && candidate.lockedUntil.value > t.now {
        return Blocked, compared;
      }
      while compared < |accounts| && !t.fits[compared]
        invariant compared <= |accounts|
        invariant FirstFit(t.fits, compared) == FirstFit(t.fits, 0)
      {
        compared := compared + 1;
      }
      if compared == |accounts| {
        var newAttempts := candidate.failed + 1;
        var shouldLock := newAttempts >= MAX_ATTEMPTS;
        accounts := accounts[0 := candidate.(failed := newAttempts)];
        if shouldLock {
          accounts := accounts[0 := accounts[0].(lockedUntil := Some(t.now + LOCKOUT))];
        }
        assert accounts == old(accounts)[0 := Fail(candidate, t.now)];
        return WrongPassword(newAttempts, shouldLock), compared;
      }
      var user := accounts[compared];
      if !user.emailVerified {
        return Unverified, compared + 1;
      }
      if user.failed > 0 || user.lockedUntil.Some? {
        accounts := accounts[compared := user.(failed := 0, lockedUntil := None)];
      } else {
        assert user == user.(failed := 0, lockedUntil := None);
        assert accounts == accounts[compared := user];
      }
      return Accepted(compared), compared + 1;
    }
  }

  /** Five or more failures on record exactly when a lock was set. */
  predicate Consistent(a: Account) {
    a.failed >= MAX_ATTEMPTS <==> a.lockedUntil.Some?
  }

  ghost predicate Inv(accounts: seq<Account>) {
    forall i :: 0 <= i < |accounts| ==> Consistent(accounts[i])
  }

  /** A run of attempts on one address, in time order. */
  predicate Timely(ts: seq<Attempt>, n: nat, from: int) {
    && (forall i :: 0 <= i < |ts| ==> |ts[i].fits| == n && from <= ts[i].now)
    && (forall i, j :: 0 <= i < j < |ts| ==> ts[i].now <= ts[j].now)
  }

  function After(accounts: seq<Account>, ts: seq<Attempt>): (r: seq<Account>)
    requires forall i :: 0 <= i < |ts| ==> |ts[i].fits| == |accounts|
    ensures |r| == |accounts|
    decreases |ts|
  {
    if ts == [] then accounts else After(Step(accounts, ts[0]).0, ts[1..])
  }

  /** In every state a run can reach, attempts are at five or more iff a lock is set. */
  lemma {:induction false} LockIffFiveAttempts(accounts: seq<Account>, ts: seq<Attempt>)
    requires Inv(accounts) && forall i :: 0 <= i < |ts| ==> |ts[i].fits| == |accounts|
    ensures Inv(After(accounts, ts))
    decreases |ts|
  {
    if ts != [] {
      LockIffFiveAttempts(Step(accounts, ts[0]).0, ts[1..]);
    }
  }

  /** The failed attempts of a run in the window from lo to hi; each compares the password with every account. */
  function Failures(accounts: seq<Account>, ts: seq<Attempt>, lo: int, hi: int): nat
    requires forall i :: 0 <= i < |ts| ==> |ts[i].fits| == |accounts|
    decreases |ts|
  {
    if ts == [] then 0
    else
      var s := Step(accounts, ts[0]);
      (if s.1.WrongPassword? && lo <= ts[0].now <= hi then 1 else 0) + Failures(s.0, ts[1..], lo, hi)
  }

  /** No attempt of the run resets the counter that guards the address. */
  predicate NoReset(accounts: seq<Account>, ts: seq<Attempt>)
    requires forall i :: 0 <= i < |ts| ==> |ts[i].fits| == |accounts|
    decreases |ts|
  {
    ts != [] ==> Step(accounts, ts[0]).1 != Accepted(0) && NoReset(Step(accounts, ts[0]).0, ts[1..])
  }

  function Max(a: int, b: int): int { if a < b then b else a }

  /** How many failures can still fall in a window that ends at hi, seen at an instant. */
  function Budget(a: Account, now: int, hi: int): int {
    if a.failed < MAX_ATTEMPTS then
      MAX_ATTEMPTS - a.failed + if now <= hi then (hi - now) / LOCKOUT else 0
    else
      var opens := if a.lockedUntil.Some? then Max(now, a.lockedUntil.value) else now;
      if opens <= hi then 1 + (hi - opens) / LOCKOUT else 0
  }

  lemma BudgetShrinks(a: Account, now: int, later: int, hi: int)
    requires now <= later
    ensures 0 <= Budget(a, later, hi) <= Budget(a, now, hi)
  {
  }

  lemma FailureCosts(a: Account, now: int, hi: int)
    requires Consistent(a) && !Locked(a, now) && now <= hi
    ensures 1 + Budget(Fail(a, now), now, hi) <= Budget(a, now, hi)
  {
  }

  lemma {:induction false} FailuresWithinBudget(accounts: seq<Account>, ts: seq<Attempt>, now: int, lo: int, hi: int)
    requires |accounts| > 0 && Inv(accounts) && Timely(ts, |accounts|, now) && NoReset(accounts, ts)
    ensures Failures(accounts, ts, lo, hi) <= Budget(accounts[0], Max(now, lo), hi)
    decreases |ts|
  {
    if ts == [] {
      BudgetShrinks(accounts[0], Max(now, lo), Max(now, lo), hi);
    } else {
      var t, s := ts[0], Step(accounts, ts[0]);
      FailuresWithinBudget(s.0, ts[1..], t.now, lo, hi);
      BudgetShrinks(accounts[0], Max(now, lo), Max(t.now, lo), hi);
      if s.1.WrongPassword? && lo <= t.now <= hi {
        FailureCosts(accounts[0], t.now, hi);
      }
    }
  }

  /**
   Between two resets of the counter, a window of any length contains at most five failed attempts
   and one more for every full fifteen minutes of its length.
   */
  lemma RateBound(accounts: seq<Account>, ts: seq<Attempt>, from: int, lo: int, length: nat)
    requires |accounts| > 0 && Inv(accounts) && Timely(ts, |accounts|, from) && NoReset(accounts, ts)
    ensures Failures(accounts, ts, lo, lo + length) <= 5 + length / 900_000
  {
    FailuresWithinBudget(accounts, ts, from, lo, lo + length);
    BudgetShrinks(accounts[0], lo, Max(from, lo), lo + length);
  }

  /** k failures on one account, each at the instant the previous lock runs out. */
  function Patient(from: int, k: nat): seq<Attempt>
    decreases k
  {
    if k == 0 then [] else [Attempt(from, [false])] + Patient(from + LOCKOUT, k - 1)
  }

  /** The same after j failures at instant zero. */
  function Burst(j: nat, k: nat): seq<Attempt> {
    if j == 0 then Patient(LOCKOUT, k) else [Attempt(0, [false])] + Burst(j - 1, k)
  }

  lemma TimelyCons(t: Attempt, ts: seq<Attempt>, n: nat, from: int)
    requires |t.fits| == n && from <= t.now && Timely(ts, n, t.now)
    ensures Timely([t] + ts, n, from)
  {
  }

  lemma {:induction false} PatientIsTimely(from: int, earlier: int, k: nat)
    requires earlier <= from
    ensures Timely(Patient(from, k), 1, earlier)
    decreases k
  {
    if k > 0 {
      PatientIsTimely(from + LOCKOUT, from, k - 1);
      TimelyCons(Attempt(from, [false]), Patient(from + LOCKOUT, k - 1), 1, earlier);
    }
  }

  lemma {:induction false} BurstIsTimely(j: nat, k: nat)
    ensures Timely(Burst(j, k), 1, 0)
    decreases j
  {
    if j == 0 {
      PatientIsTimely(LOCKOUT, 0, k);
    } else {
      BurstIsTimely(j - 1, k);
      TimelyCons(Attempt(0, [false]), Burst(j - 1, k), 1, 0);
    }
  }

  /** One failed comparison on a single account that is not locked. */
  lemma FirstFails(a: Account, now: int, ts: seq<Attempt>, lo: int, hi: int)
    requires !Locked(a, now) && lo <= now <= hi && Timely(ts, 1, now)
    ensures var all := [Attempt(now, [false])] + ts;
            && Timely(all, 1, now)
            && Failures([a], all, lo, hi) == 1 + Failures([Fail(a, now)], ts, lo, hi)
            && (NoReset([a], all) <==> NoReset([Fail(a, now)], ts))
  {
    var t := Attempt(now, [false]);
    TimelyCons(t, ts, 1, now);
    assert ([t] + ts)[1..] == ts;
    assert [a][0 := Fail(a, now)] == [Fail(a, now)];
  }

  lemma {:induction false} PatientFails(a: Account, from: int, k: nat, hi: int)
    requires a.failed >= MAX_ATTEMPTS && a.lockedUntil == Some(from) && from >= 0
    requires hi == from + (k - 1) * LOCKOUT
    ensures Timely(Patient(from, k), 1, 0) && NoReset([a], Patient(from, k)) && Failures([a], Patient(from, k), 0, hi) == k
    decreases k
  {
    PatientIsTimely(from, 0, k);
    if k > 0 {
      PatientIsTimely(from + LOCKOUT, from, k - 1);
      PatientFails(Fail(a, from), from + LOCKOUT, k - 1, hi);
      FirstFails(a, from, Patient(from + LOCKOUT, k - 1), 0, hi);
    }
  }

  lemma {:induction false} BurstFails(a: Account, j: nat, k: nat)
    requires a.failed + j == MAX_ATTEMPTS
    requires a.lockedUntil == if j == 0 then Some(LOCKOUT) else None
    ensures Timely(Burst(j, k), 1, 0) && NoReset([a], Burst(j, k))
    ensures Failures([a], Burst(j, k), 0, k * LOCKOUT) == j + k
    decreases j
  {
    BurstIsTimely(j, k);
    if j == 0 {
      PatientFails(a, LOCKOUT, k, k * LOCKOUT);
    } else {
      BurstIsTimely(j - 1, k);
      BurstFails(Fail(a, 0), j - 1, k);
      FirstFails(a, 0, Burst(j - 1, k), 0, k * LOCKOUT);
    }
  }

  /** The bound is exact: for windows of whole fifteen minutes some run of a new account reaches it. */
  lemma RateBoundIsReached(k: nat) returns (ts: seq<Attempt>)
    ensures Timely(ts, 1, 0) && NoReset([Account(0, None, true)], ts)
    ensures Failures([Account(0, None, true)], ts, 0, k * 900_000) == 5 + k
  {
    ts := Burst(MAX_ATTEMPTS, k);
    BurstFails(Account(0, None, true), MAX_ATTEMPTS, k);
  }
}
