/** Every answer of the login check follows from the answers before it: how many failed since the last success, and when. */
module LockoutHistory {
  import opened Options
  import opened LoginLockout

  /** Every attempt says of each account of the address whether the password fits it. */
  predicate Fitted(accounts: seq<Account>, ts: seq<Attempt>) {
    forall i :: 0 <= i < |ts| ==> |ts[i].fits| == |accounts|
  }

  /** The accounts before attempt n. */
  function AccountsAt(accounts: seq<Account>, ts: seq<Attempt>, n: nat): (r: seq<Account>)
    requires Fitted(accounts, ts) && n <= |ts|
    ensures |r| == |accounts|
  {
    if n == 0 then accounts else Step(AccountsAt(accounts, ts, n - 1), ts[n - 1]).0
  }

  function AnswerAt(accounts: seq<Account>, ts: seq<Attempt>, n: nat): Outcome
    requires Fitted(accounts, ts) && n < |ts|
  {
    Step(AccountsAt(accounts, ts, n), ts[n]).1
  }

  /** How many of the first n attempts answered with a wrong password since the last one accepted for the first account. */
  function FailuresSince(accounts: seq<Account>, ts: seq<Attempt>, n: nat): nat
    requires Fitted(accounts, ts) && n <= |ts|
  {
    if n == 0 || AnswerAt(accounts, ts, n - 1) == Accepted(0) then 0
    else FailuresSince(accounts, ts, n - 1) + if AnswerAt(accounts, ts, n - 1).WrongPassword? then 1 else 0
  }

  /** When the last of the first n attempts that answered with a wrong password was made. */
  function LastFailure(accounts: seq<Account>, ts: seq<Attempt>, n: nat): Option<int>
    requires Fitted(accounts, ts) && n <= |ts|
  {
    if n == 0 then None
    else if AnswerAt(accounts, ts, n - 1).WrongPassword? then Some(ts[n - 1].now)
    else LastFailure(accounts, ts, n - 1)
  }

  /** Accounts on which nothing has happened yet. */
  predicate Fresh(accounts: seq<Account>) {
    forall k :: 0 <= k < |accounts| ==> accounts[k].failed == 0 && accounts[k].lockedUntil.None?
  }

  /** The first account holds the count, and a lock of fifteen minutes after the last failure from the fifth on. */
  predicate Holds(a: Account, failures: nat, last: Option<int>) {
    && a.failed == failures
    && (failures > 0 ==> last.Some?)
    && a.lockedUntil == if failures >= 5 && last.Some? then Some(last.value + 900_000) else None
  }

  lemma {:induction false} VerifiedStays(accounts: seq<Account>, ts: seq<Attempt>, n: nat, k: nat)
    requires Fitted(accounts, ts) && n <= |ts| && k < |accounts|
    ensures AccountsAt(accounts, ts, n)[k].emailVerified == accounts[k].emailVerified
  {
    if n > 0 {
      VerifiedStays(accounts, ts, n - 1, k);
    }
  }

  /** In every run the counter and the lock of the first account are what the answers so far say. */
  lemma {:induction false} CounterIsHistory(accounts: seq<Account>, ts: seq<Attempt>, n: nat)
    requires Fitted(accounts, ts) && n <= |ts| && accounts != [] && Fresh(accounts)
    ensures Holds(AccountsAt(accounts, ts, n)[0], FailuresSince(accounts, ts, n), LastFailure(accounts, ts, n))
  {
    if n > 0 {
      CounterIsHistory(accounts, ts, n - 1);
    }
  }

  /** The address is closed: five failures since the last success, the last of them less than fifteen minutes ago. */
  predicate Closed(accounts: seq<Account>, ts: seq<Attempt>, n: nat)
    requires Fitted(accounts, ts) && n < |ts|
  {
    var last := LastFailure(accounts, ts, n);
    FailuresSince(accounts, ts, n) >= 5 && last.Some? && ts[n].now < last.value + 900_000
  }

  lemma FirstFitting(accounts: seq<Account>, ts: seq<Attempt>, n: nat, k: nat)
    requires Fitted(accounts, ts) && n < |ts| && k < |accounts| && Fresh(accounts) && !Closed(accounts, ts, n)
    requires ts[n].fits[k] && forall j :: 0 <= j < k ==> !ts[n].fits[j]
    ensures AnswerAt(accounts, ts, n) == if accounts[k].emailVerified then Accepted(k) else Unverified
  {
    CounterIsHistory(accounts, ts, n);
    VerifiedStays(accounts, ts, n, k);
    assert FirstFit(ts[n].fits, 0) == k;
  }

  /**
   The answer to attempt n of any run: blocked while the address is closed, whatever the password; else a
   wrong password, counted, when it fits no account; else the first account it fits, if its email is verified.
   */
  lemma AnswerFromHistory(accounts: seq<Account>, ts: seq<Attempt>, n: nat)
    requires Fitted(accounts, ts) && n < |ts| && accounts != [] && Fresh(accounts)
    ensures var fits, failures, answer := ts[n].fits, FailuresSince(accounts, ts, n), AnswerAt(accounts, ts, n);
            && (Closed(accounts, ts, n) ==> answer == Blocked)
            && (!Closed(accounts, ts, n) && (forall k :: 0 <= k < |fits| ==> !fits[k]) ==>
                  answer == WrongPassword(failures + 1, failures >= 4))
            && (forall k: nat :: !Closed(accounts, ts, n) && k < |fits| && fits[k] && (forall j :: 0 <= j < k ==> !fits[j]) ==>
                                   answer == if accounts[k].emailVerified then Accepted(k) else Unverified)
  {
    CounterIsHistory(accounts, ts, n);
    var fits := ts[n].fits;
    forall k: nat | !Closed(accounts, ts, n) && k < |fits| && fits[k] && (forall j :: 0 <= j < k ==> !fits[j])
      ensures AnswerAt(accounts, ts, n) == if accounts[k].emailVerified then Accepted(k) else Unverified
    {
      FirstFitting(accounts, ts, n, k);
    }
  }

  /** Without an account of that address nothing is compared. */
  lemma NoAccountAnswer(ts: seq<Attempt>, n: nat)
    requires Fitted([], ts) && n < |ts|
    ensures AnswerAt([], ts, n) == NoAccount
  {
  }
}
