/** The sort the program asks of its runtime, by a numeric key, as stable insertion. */
module StableSort {
  predicate SortedBy<T>(s: seq<T>, key: T -> int) {
    forall i, j :: 0 <= i < j < |s| ==> key(s[i]) <= key(s[j])
  }

  /** Insertion in front of the first element that is not smaller. */
  function Insert<T>(x: T, s: seq<T>, key: T -> int): (r: seq<T>)
    ensures multiset(r) == multiset{x} + multiset(s)
  {
    if s == [] || key(x) <= key(s[0]) then [x] + s
    else
      assert s == [s[0]] + s[1..];
      [s[0]] + Insert(x, s[1..], key)
  }

  lemma {:induction false} InsertSorted<T>(x: T, s: seq<T>, key: T -> int)
    requires SortedBy(s, key)
    ensures SortedBy(Insert(x, s, key), key)
  {
    if s != [] && key(x) > key(s[0]) {
      var rest := Insert(x, s[1..], key);
      InsertSorted(x, s[1..], key);
      forall k | 0 <= k < |rest| ensures key(s[0]) <= key(rest[k]) {
        assert rest[k] in multiset(rest);
        assert rest[k] == x || rest[k] in s[1..];
      }
    }
  }

  function SortBy<T>(s: seq<T>, key: T -> int): (r: seq<T>)
    ensures SortedBy(r, key)
    ensures multiset(r) == multiset(s)
  {
    if s == [] then []
    else
      assert s == [s[0]] + s[1..];
      InsertSorted(s[0], SortBy(s[1..], key), key);
      Insert(s[0], SortBy(s[1..], key), key)
  }

  /** The elements of one key, in list order. */
  function Ties<T>(s: seq<T>, key: T -> int, k: int): seq<T> {
    if s == [] then [] else (if key(s[0]) == k then [s[0]] else []) + Ties(s[1..], key, k)
  }

  lemma TiesCons<T>(x: T, s: seq<T>, key: T -> int, k: int)
    ensures Ties([x] + s, key, k) == (if key(x) == k then [x] else []) + Ties(s, key, k)
  {
    assert ([x] + s)[1..] == s;
  }

  lemma {:induction false} InsertBeforeTies<T>(x: T, s: seq<T>, key: T -> int, k: int)
    ensures Ties(Insert(x, s, key), key, k) == (if key(x) == k then [x] else []) + Ties(s, key, k)
  {
    TiesCons(x, s, key, k);
    if s != [] && key(x) > key(s[0]) {
      InsertBeforeTies(x, s[1..], key, k);
      TiesCons(s[0], Insert(x, s[1..], key), key, k);
    }
  }

  /** Elements of equal key keep their order. */
  lemma {:induction false} SortIsStable<T>(s: seq<T>, key: T -> int, k: int)
    ensures Ties(SortBy(s, key), key, k) == Ties(s, key, k)
  {
    if s != [] {
      SortIsStable(s[1..], key, k);
      InsertBeforeTies(s[0], SortBy(s[1..], key), key, k);
    }
  }

  lemma Associate<T>(x: seq<T>, y: seq<T>, z: seq<T>)
    ensures x + (y + z) == (x + y) + z
  {
  }

  lemma {:induction false} TiesOfSum<T>(a: seq<T>, b: seq<T>, key: T -> int, k: int)
    ensures Ties(a + b, key, k) == Ties(a, key, k) + Ties(b, key, k)
  {
    if a == [] {
      assert a + b == b;
    } else {
      TiesOfSum(a[1..], b, key, k);
      TiesCons(a[0], a[1..] + b, key, k);
      assert a + b == [a[0]] + (a[1..] + b);
      var first := if key(a[0]) == k then [a[0]] else [];
      Associate(first, Ties(a[1..], key, k), Ties(b, key, k));
    }
  }

  predicate StrictlyBy<T>(s: seq<T>, key: T -> int) {
    forall i, j :: 0 <= i < j < |s| ==> key(s[i]) < key(s[j])
  }

  /** Lists with the same elements, one sorted and one strictly sorted, start alike. */
  lemma SameHead<T>(s: seq<T>, t: seq<T>, key: T -> int)
    requires SortedBy(s, key) && StrictlyBy(t, key) && multiset(s) == multiset(t) && s != [] && t != []
    ensures s[0] == t[0]
  {
    assert t[0] in multiset(s) && s[0] in multiset(t);
    var i :| 0 <= i < |s| && s[i] == t[0];
    var j :| 0 <= j < |t| && t[j] == s[0];
  }

  lemma BagOfTail<T>(s: seq<T>)
    requires s != []
    ensures multiset(s[1..]) == multiset(s) - multiset{s[0]}
  {
    assert s == [s[0]] + s[1..];
  }

  lemma TailsSorted<T>(s: seq<T>, t: seq<T>, key: T -> int)
    requires SortedBy(s, key) && StrictlyBy(t, key) && s != [] && t != []
    ensures SortedBy(s[1..], key) && StrictlyBy(t[1..], key)
  {
  }

  lemma TailsMatch<T>(s: seq<T>, t: seq<T>, key: T -> int)
    requires SortedBy(s, key) && StrictlyBy(t, key) && multiset(s) == multiset(t) && t != []
    ensures s != [] && s[0] == t[0] && multiset(s[1..]) == multiset(t[1..])
    ensures SortedBy(s[1..], key) && StrictlyBy(t[1..], key)
  {
    assert |multiset(s)| == |s|;
    SameHead(s, t, key);
    BagOfTail(s);
    BagOfTail(t);
    TailsSorted(s, t, key);
  }

  lemma HeadAndTail<T>(s: seq<T>, t: seq<T>)
    requires s != [] && t != [] && s[0] == t[0] && s[1..] == t[1..]
    ensures s == t
  {
    assert s == [s[0]] + s[1..] && t == [t[0]] + t[1..];
  }

  /** So they are the same list. */
  lemma {:induction false} SortedIsUnique<T>(s: seq<T>, t: seq<T>, key: T -> int)
    requires SortedBy(s, key) && StrictlyBy(t, key) && multiset(s) == multiset(t)
    ensures s == t
  {
    if t != [] {
      TailsMatch(s, t, key);
      SortedIsUnique(s[1..], t[1..], key);
      HeadAndTail(s, t);
    } else {
      assert |multiset(s)| == |s|;
    }
  }
}
