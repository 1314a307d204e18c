/**
 The in-memory cache of the dashboard: answers are stored under a text key with a time to live, and an
 expired answer is deleted when it is looked up.
 */
module DashboardCache {
  import opened Options

  /** What is asked of the dashboard; every parameter that decides the answer is part of the key. */
  datatype Query =
    | Kpi(tenant: string, role: string, user: string)
    | Growth(tenant: string)
    | Summary(tenant: string, role: string, user: string, startOfDay: string)
    | Availability(tenant: string)
    | Alerts(tenant: string, role: string, user: string)

  function Fields(q: Query): (r: seq<string>)
    ensures |r| >= 2
  {
    match q
    case Kpi(t, r, u) => ["kpi", t, r, u]
    case Growth(t) => ["employee-growth", t]
    case Summary(t, r, u, s) => ["attendance-summary", t, r, u, s]
    case Availability(t) => ["employee-availability", t]
    case Alerts(t, r, u) => ["alerts", t, r, u]
  }

  function Joined(fields: seq<string>): string
    requires fields != []
  {
    if |fields| == 1 then fields[0] else fields[0] + ":" + Joined(fields[1..])
  }

  function KeyText(q: Query): string { Joined(Fields(q)) }

  /** Tenant ids, roles and user ids hold no colon; an instant in a key does. */
  predicate Plain(q: Query) {
    forall i :: 0 <= i < |Fields(q)| - 1 ==> ':' !in Fields(q)[i]
  }

  lemma ColonComesLater(a: string, b: string, x: string, y: string)
    requires a + ":" + x == b + ":" + y
    ensures |a| < |b| ==> ':' in b
  {
    assert (a + ":" + x)[|a|] == ':';
    if |a| < |b| {
      assert (b + ":" + y)[|a|] == b[|a|];
    }
  }

  lemma FirstFieldEnds(a: string, b: string, x: string, y: string)
    requires ':' !in a && ':' !in b && a + ":" + x == b + ":" + y
    ensures a == b && x == y
  {
    ColonComesLater(a, b, x, y);
    ColonComesLater(b, a, y, x);
    assert a == (a + ":" + x)[..|a|] && b == (b + ":" + y)[..|b|];
    assert x == (a + ":" + x)[|a| + 1..] && y == (b + ":" + y)[|b| + 1..];
  }

  lemma {:induction false} JoinedApart(s: seq<string>, t: seq<string>)
    requires |s| == |t| > 0 && Joined(s) == Joined(t)
    requires forall i :: 0 <= i < |s| - 1 ==> ':' !in s[i] && ':' !in t[i]
    ensures s == t
  {
    if |s| > 1 {
      FirstFieldEnds(s[0], t[0], Joined(s[1..]), Joined(t[1..]));
      JoinedApart(s[1..], t[1..]);
      assert s == [s[0]] + s[1..] && t == [t[0]] + t[1..];
    } else {
      assert s == [s[0]] && t == [t[0]];
    }
  }

  lemma KindNames(q: Query, r: Query)
    requires Fields(q)[0] == Fields(r)[0]
    ensures |Fields(q)| == |Fields(r)|
    ensures Fields(q) == Fields(r) ==> q == r
  {
    var kpi, growth, summary, availability, alerts :=
      "kpi", "employee-growth", "attendance-summary", "employee-availability", "alerts";
    assert |kpi| == 3 && |growth| == 15 && |summary| == 18 && |availability| == 21 && |alerts| == 6;
    assert [Fields(q)[1]] == Fields(q)[1..2];
  }

  /** Different questions have different keys: no answer of one tenant, role, user or day serves another. */
  lemma KeysAreInjective(q: Query, r: Query)
    requires Plain(q) && Plain(r)
    ensures KeyText(q) == KeyText(r) <==> q == r
  {
    if KeyText(q) == KeyText(r) {
      FirstFieldEnds(Fields(q)[0], Fields(r)[0], Joined(Fields(q)[1..]), Joined(Fields(r)[1..]));
      KindNames(q, r);
      JoinedApart(Fields(q), Fields(r));
    }
  }

  datatype Entry<V> = Entry(value: V, expiresAt: int)

  type Cache<V> = map<string, Entry<V>>

  function Answer<V>(cache: Cache<V>, key: string, now: int): Option<V> {
    if key in cache && now <= cache[key].expiresAt then Some(cache[key].value) else None
  }

  function AfterGet<V>(cache: Cache<V>, key: string, now: int): Cache<V> {
    if key in cache && now > cache[key].expiresAt then cache - {key} else cache
  }

  class DashboardService<V(==)> {
    var cache: Cache<V>

    constructor ()
      ensures cache == map[]
    {
      cache := map[];
    }

    method GetCache(key: string, now: int) returns (r: Option<V>)
      modifies this
      ensures r == Answer(old(cache), key, now)
      ensures cache == AfterGet(old(cache), key, now)
    {
      if key !in cache {
        return None;
      }
      if now > cache[key].expiresAt {
        cache := cache - {key};
        return None;
      }
      return Some(cache[key].value);
    }

    method SetCache(key: string, value: V, ttl: int, now: int)
      modifies this
      ensures cache == old(cache)[key := Entry(value, now + ttl)]
      ensures forall t :: Answer(cache, key, t) == if t <= now + ttl then Some(value) else None
      ensures forall k, t :: k != key ==> Answer(cache, k, t) == Answer(old(cache), k, t)
    {
      cache := cache[key := Entry(value, now + ttl)];
    }
  }

  /** A lookup and the store of a computed answer are separate steps: other requests may run between them. */
  datatype Op<V> = Look(query: Query, now: int) | Store(query: Query, now: int, value: V, ttl: int)

  /** The cache after the first n steps. */
  function At<V>(ops: seq<Op<V>>, n: nat): Cache<V>
    requires n <= |ops|
  {
    if n == 0 then map[]
    else
      var before := At(ops, n - 1);
      match ops[n - 1]
      case Look(q, now) => AfterGet(before, KeyText(q), now)
      case Store(q, now, value, ttl) => before[KeyText(q) := Entry(value, now + ttl)]
  }

  /** The last of the first n steps that stored an answer to this very question. */
  function LastStore<V>(ops: seq<Op<V>>, n: nat, q: Query): (r: Option<nat>)
    requires n <= |ops|
    ensures r.Some? ==> r.value < n && ops[r.value].Store? && ops[r.value].query == q
  {
    if n == 0 then None
    else if ops[n - 1].Store? && ops[n - 1].query == q then Some(n - 1)
    else LastStore(ops, n - 1, q)
  }

  /** The answer a cache without keys or deletion would give: the latest one stored, while it lives. */
  function Latest<V>(ops: seq<Op<V>>, n: nat, q: Query, now: int): Option<V>
    requires n <= |ops|
  {
    var i := LastStore(ops, n, q);
    if i.Some? && now <= ops[i.value].now + ops[i.value].ttl then Some(ops[i.value].value) else None
  }

  predicate PlainRun<V>(ops: seq<Op<V>>) {
    forall i :: 0 <= i < |ops| ==> Plain(ops[i].query)
  }

  /** No step of the run is later than now, and the clock never goes back. */
  predicate ClockRuns<V>(ops: seq<Op<V>>, n: nat, now: int)
    requires n <= |ops|
  {
    n > 0 ==> ops[n - 1].now <= now && ClockRuns(ops, n - 1, ops[n - 1].now)
  }

  /** A step that stores no answer to a question keeps its entry, or deletes it. */
  lemma EntryStays<V>(ops: seq<Op<V>>, n: nat, q: Query)
    requires 0 < n <= |ops| && PlainRun(ops) && Plain(q) && KeyText(q) in At(ops, n)
    requires !(ops[n - 1].Store? && ops[n - 1].query == q)
    ensures KeyText(q) in At(ops, n - 1) && At(ops, n)[KeyText(q)] == At(ops, n - 1)[KeyText(q)]
  {
    KeysAreInjective(ops[n - 1].query, q);
  }

  /** Whatever is cached under a question's key is the latest answer stored for that question. */
  lemma {:induction false} CachedIsLatest<V>(ops: seq<Op<V>>, n: nat, q: Query)
    requires n <= |ops| && PlainRun(ops) && Plain(q) && KeyText(q) in At(ops, n)
    ensures var i := LastStore(ops, n, q);
            i.Some? && At(ops, n)[KeyText(q)] == Entry(ops[i.value].value, ops[i.value].now + ops[i.value].ttl)
  {
    if n > 0 && !(ops[n - 1].Store? && ops[n - 1].query == q) {
      EntryStays(ops, n, q);
      CachedIsLatest(ops, n - 1, q);
    }
  }

  lemma LatestStays<V>(ops: seq<Op<V>>, n: nat, q: Query, now: int)
    requires 0 < n <= |ops| && !(ops[n - 1].Store? && ops[n - 1].query == q) && ops[n - 1].now <= now
    requires Latest(ops, n - 1, q, ops[n - 1].now).None?
    ensures Latest(ops, n, q, now).None?
  {
  }

  lemma JustExpired<V>(ops: seq<Op<V>>, n: nat, q: Query)
    requires 0 < n <= |ops| && PlainRun(ops) && Plain(q)
    requires KeyText(q) in At(ops, n - 1) && KeyText(q) !in At(ops, n)
    ensures Latest(ops, n - 1, q, ops[n - 1].now).None?
  {
    CachedIsLatest(ops, n - 1, q);
  }

  /** A deleted answer had expired, and stays expired. */
  lemma {:induction false} MissingIsExpired<V>(ops: seq<Op<V>>, n: nat, q: Query, now: int)
    requires n <= |ops| && PlainRun(ops) && Plain(q) && ClockRuns(ops, n, now) && KeyText(q) !in At(ops, n)
    ensures Latest(ops, n, q, now).None?
  {
    if n > 0 {
      if KeyText(q) !in At(ops, n - 1) {
        MissingIsExpired(ops, n - 1, q, ops[n - 1].now);
      } else {
        JustExpired(ops, n, q);
      }
      LatestStays(ops, n, q, now);
    }
  }

  /**
   In every run, a lookup answers exactly the latest answer stored for the same question while it is at
   most its time to live old, and nothing otherwise.
   */
  lemma LookupIsLatest<V>(ops: seq<Op<V>>, n: nat, q: Query, now: int)
    requires n <= |ops| && PlainRun(ops) && Plain(q) && ClockRuns(ops, n, now)
    ensures Answer(At(ops, n), KeyText(q), now) == Latest(ops, n, q, now)
  {
    if KeyText(q) in At(ops, n) {
      CachedIsLatest(ops, n, q);
    } else {
      MissingIsExpired(ops, n, q, now);
    }
  }

  lemma {:induction false} ClockOrders<V>(ops: seq<Op<V>>, n: nat, now: int, i: nat)
    requires i < n <= |ops| && ClockRuns(ops, n, now)
    ensures ops[i].now <= now
  {
    if i < n - 1 {
      ClockOrders(ops, n - 1, ops[n - 1].now, i);
    }
  }

  predicate ShortLived<V>(ops: seq<Op<V>>) {
    forall i :: 0 <= i < |ops| && ops[i].Store? ==> ops[i].ttl == 60_000 || ops[i].ttl == 300_000
  }

  /** So no answer is older than five minutes. */
  lemma StalenessBound<V>(ops: seq<Op<V>>, n: nat, q: Query, now: int) returns (i: nat)
    requires n <= |ops| && PlainRun(ops) && Plain(q) && ClockRuns(ops, n, now) && ShortLived(ops)
    requires Answer(At(ops, n), KeyText(q), now).Some?
    ensures i < n && ops[i].Store? && ops[i].query == q
    ensures Answer(At(ops, n), KeyText(q), now) == Some(ops[i].value)
    ensures 0 <= now - ops[i].now <= ops[i].ttl <= 300_000
  {
    LookupIsLatest(ops, n, q, now);
    i := LastStore(ops, n, q).value;
    ClockOrders(ops, n, now, i);
  }
}
