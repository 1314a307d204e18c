/** Paged lists that are merged in memory from a tenant's own table and shared or further tables. */
module MergedLists {
  import opened StableSort
  import opened Paging

  /** A row of either table: its id, the table it was read from, and its creation instant. */
  datatype Row = Row(id: string, isShared: bool, createdAt: int)

  function NewestFirst(r: Row): int { -r.createdAt }

  function Ids(rows: seq<Row>): set<string> {
    set i | 0 <= i < |rows| :: rows[i].id
  }

  /** The first row of every id, in list order. */
  function Firsts(rows: seq<Row>): seq<Row> {
    if rows == [] then []
    else
      var front, last := rows[..|rows| - 1], rows[|rows| - 1];
      Firsts(front) + if last.id in Ids(front) then [] else [last]
  }

  predicate FirstOfItsId(rows: seq<Row>, i: nat)
    requires i < |rows|
  {
    forall j :: 0 <= j < i ==> rows[j].id != rows[i].id
  }

  predicate Leads(rows: seq<Row>, i: nat, r: Row) {
    i < |rows| && rows[i] == r && FirstOfItsId(rows, i)
  }

  lemma FirstOfSum(a: seq<Row>, b: seq<Row>, i: nat)
    requires i < |a|
    ensures FirstOfItsId(a + b, i) <==> FirstOfItsId(a, i)
  {
    assert (a + b)[..|a|] == a;
    forall j | 0 <= j < |a| ensures (a + b)[j] == a[j] {
    }
  }

  lemma LaterFirst(a: seq<Row>, b: seq<Row>, i: nat)
    requires i < |b|
    ensures FirstOfItsId(a + b, |a| + i) <==> FirstOfItsId(b, i) && b[i].id !in Ids(a)
  {
    var both := a + b;
    assert both[|a| + i] == b[i];
    if FirstOfItsId(both, |a| + i) {
      forall j | 0 <= j < i ensures b[j].id != b[i].id {
        assert both[|a| + j] == b[j];
      }
      forall j | 0 <= j < |a| ensures a[j].id != b[i].id {
        assert both[j] == a[j];
      }
    }
  }

  /** What leads a concatenation: the leaders of its first part, and those of the second whose id is new. */
  lemma LeadsOfSum(a: seq<Row>, b: seq<Row>, r: Row)
    ensures (exists i: nat :: Leads(a + b, i, r))
            <==> (exists i: nat :: Leads(a, i, r)) || (r.id !in Ids(a) && exists i: nat :: Leads(b, i, r))
  {
    if i: nat :| Leads(a + b, i, r) {
      if i < |a| {
        FirstOfSum(a, b, i);
        assert Leads(a, i, r);
      } else {
        LaterFirst(a, b, i - |a|);
        assert Leads(b, i - |a|, r);
      }
    }
    if i: nat :| Leads(a, i, r) {
      FirstOfSum(a, b, i);
      assert Leads(a + b, i, r);
    }
    if i: nat :| r.id !in Ids(a) && Leads(b, i, r) {
      LaterFirst(a, b, i);
      assert Leads(a + b, |a| + i, r);
    }
  }

  lemma {:induction false} FirstsAreFirst(rows: seq<Row>, r: Row)
    ensures r in Firsts(rows) <==> exists i: nat :: Leads(rows, i, r)
  {
    if rows != [] {
      var front, last := rows[..|rows| - 1], rows[|rows| - 1];
      FirstsAreFirst(front, r);
      LeadsOfSum(front, [last], r);
      assert rows == front + [last];
      if r == last {
        assert Leads([last], 0, r);
      }
    }
  }

  predicate NoIdTwice(rows: seq<Row>) {
    forall i, j :: 0 <= i < j < |rows| ==> rows[i].id != rows[j].id
  }

  lemma {:induction false} FirstsOnce(rows: seq<Row>)
    ensures NoIdTwice(Firsts(rows)) && Ids(Firsts(rows)) == Ids(rows)
  {
    if rows != [] {
      var front, last := rows[..|rows| - 1], rows[|rows| - 1];
      FirstsOnce(front);
      var before := Firsts(front);
      assert rows == front + [last];
      IdsOfSum(front, [last]);
      IdsOfSum(before, if last.id in Ids(front) then [] else [last]);
      assert forall i :: 0 <= i < |before| ==> before[i].id in Ids(before);
    }
  }

  lemma IdsOfSum(a: seq<Row>, b: seq<Row>)
    ensures Ids(a + b) == Ids(a) + Ids(b)
  {
    forall x | x in Ids(a) + Ids(b) ensures x in Ids(a + b) {
      if x in Ids(a) {
        var i :| 0 <= i < |a| && a[i].id == x;
        assert (a + b)[i].id == x;
      } else {
        var i :| 0 <= i < |b| && b[i].id == x;
        assert (a + b)[|a| + i].id == x;
      }
    }
  }

  /** The filter with its set of ids already seen. */
  method Deduplicate(rows: seq<Row>) returns (kept: seq<Row>)
    ensures kept == Firsts(rows)
  {
    kept := [];
    var seen: set<string> := {};
    for i := 0 to |rows|
      invariant seen == Ids(rows[..i]) && kept == Firsts(rows[..i])
    {
      assert rows[..i + 1][..i] == rows[..i];
      IdsOfSum(rows[..i], [rows[i]]);
      assert rows[..i + 1] == rows[..i] + [rows[i]];
      if rows[i].id in seen {
        continue;
      }
      seen := seen + {rows[i].id};
      kept := kept + [rows[i]];
    }
    assert rows[..|rows|] == rows;
  }

  lemma OldestLast(rows: seq<Row>)
    requires SortedBy(rows, NewestFirst)
    ensures forall i, j :: 0 <= i < j < |rows| ==> rows[i].createdAt >= rows[j].createdAt
  {
    forall i, j | 0 <= i < j < |rows| ensures rows[i].createdAt >= rows[j].createdAt {
      assert NewestFirst(rows[i]) <= NewestFirst(rows[j]);
    }
  }

  const PER_PAGE: nat := 25

  /** A department's designations: the tenant's own, and the shared ones it has no copy of. */
  function Merged(own: seq<Row>, shared: seq<Row>): seq<Row> {
    SortBy(Firsts(own + shared), NewestFirst)
  }

  method FindAllByDepartment(own: seq<Row>, shared: seq<Row>, page: int)
    returns (items: seq<Row>, total: nat, totalPages: nat)
    ensures items == Page(Merged(own, shared), page, PER_PAGE)
    ensures total == |Merged(own, shared)| && totalPages == TotalPages(total, PER_PAGE)
  {
    var kept := Deduplicate(own + shared);
    var all := SortBy(kept, NewestFirst);
    total := |all|;
    var skip := (page - 1) * PER_PAGE;
    items := Slice(all, skip, skip + PER_PAGE);
    totalPages := TotalPages(total, PER_PAGE);
  }

  lemma SameBagSameRows(a: seq<Row>, b: seq<Row>, r: Row)
    requires multiset(a) == multiset(b)
    ensures r in a <==> r in b
  {
    assert r in a <==> r in multiset(a);
    assert r in b <==> r in multiset(b);
  }

  lemma BagWithoutIdTwice(a: seq<Row>, b: seq<Row>)
    requires multiset(a) == multiset(b) && NoIdTwice(a)
    ensures NoIdTwice(b)
  {
    forall i, j | 0 <= i < j < |b| ensures b[i].id != b[j].id {
      if b[i].id == b[j].id {
        SameBagSameRows(a, b, b[i]);
        SameBagSameRows(a, b, b[j]);
        if b[i] == b[j] {
          TwiceInBag(b, i, j);
          OnceInBag(a, b[i]);
        }
        assert false;
      }
    }
  }

  lemma TwiceInBag(b: seq<Row>, i: nat, j: nat)
    requires i < j < |b| && b[i] == b[j]
    ensures multiset(b)[b[i]] >= 2
  {
    assert b == b[..j] + [b[j]] + b[j + 1..];
    assert b[i] == b[..j][i] && b[..j][i] in multiset(b[..j]);
  }

  lemma {:induction false} OnceInBag(a: seq<Row>, r: Row)
    requires NoIdTwice(a)
    ensures multiset(a)[r] <= 1
  {
    if a != [] {
      OnceInBag(a[1..], r);
      assert a == [a[0]] + a[1..];
      if r == a[0] {
        assert r !in a[1..];
      }
    }
  }

  /** The row that stands for its id: the tenant's first, and a shared one only when the tenant has none. */
  ghost predicate Stands(own: seq<Row>, shared: seq<Row>, r: Row) {
    (exists i: nat :: Leads(own, i, r)) || (r.id !in Ids(own) && exists i: nat :: Leads(shared, i, r))
  }

  /**
   The pages of a department, one after the other, show every id of the two tables exactly once, newest
   first, each by the row that stands for it.
   */
  lemma DepartmentPagesAreComplete(own: seq<Row>, shared: seq<Row>) returns (shown: seq<Row>)
    ensures shown == Pages(Merged(own, shared), PER_PAGE, TotalPages(|Merged(own, shared)|, PER_PAGE))
    ensures SortedBy(shown, NewestFirst) && NoIdTwice(shown)
    ensures forall i, j :: 0 <= i < j < |shown| ==> shown[i].createdAt >= shown[j].createdAt
    ensures forall r: Row :: r in shown <==> Stands(own, shared, r)
  {
    shown := Pages(Merged(own, shared), PER_PAGE, TotalPages(|Merged(own, shared)|, PER_PAGE));
    PagesAreAll(Merged(own, shared), PER_PAGE);
    OldestLast(shown);
    FirstsOnce(own + shared);
    BagWithoutIdTwice(Firsts(own + shared), shown);
    forall r ensures r in shown <==> Stands(own, shared, r) {
      SameBagSameRows(Firsts(own + shared), shown, r);
      FirstsAreFirst(own + shared, r);
      LeadsOfSum(own, shared, r);
    }
  }

  /** Every id of either table has a row standing for it. */
  lemma EveryIdIsShown(own: seq<Row>, shared: seq<Row>, id: string)
    requires id in Ids(own) || id in Ids(shared)
    ensures exists r: Row :: r.id == id && Stands(own, shared, r)
  {
    IdsOfSum(own, shared);
    FirstsOnce(own + shared);
    var firsts := Firsts(own + shared);
    var i :| 0 <= i < |firsts| && firsts[i].id == id;
    FirstsAreFirst(own + shared, firsts[i]);
    LeadsOfSum(own, shared, firsts[i]);
  }

  function Flatten(tables: seq<seq<Row>>): seq<Row> {
    if tables == [] then [] else Flatten(tables[..|tables| - 1]) + tables[|tables| - 1]
  }

  /** The tables one after the other. */
  lemma {:induction false} FlattenHolds(tables: seq<seq<Row>>, i: nat)
    requires i < |tables|
    ensures Flatten(tables[..i + 1]) == Flatten(tables[..i]) + tables[i]
    ensures Flatten(tables[..i + 1]) <= Flatten(tables) && Flatten([]) == []
    decreases |tables| - i
  {
    assert tables[..i + 1][..i] == tables[..i];
    if i + 1 < |tables| {
      FlattenHolds(tables, i + 1);
      assert Flatten(tables[..i + 2]) == Flatten(tables[..i + 1]) + tables[i + 1];
    } else {
      assert tables[..i + 1] == tables;
    }
  }

  /** Announcements of all tenants: the shared table's, then those of every tenant's own table. */
  function GlobalMerged(legacy: seq<Row>, tables: seq<seq<Row>>): seq<Row> {
    SortBy(legacy + Flatten(tables), NewestFirst)
  }

  /** At least one page is announced, even for an empty list. */
  function PagesShown(total: nat, limit: nat): nat
    requires limit > 0
  {
    if TotalPages(total, limit) == 0 then 1 else TotalPages(total, limit)
  }

  lemma OneEmptyPage<T>(s: seq<T>, limit: nat)
    requires limit > 0
    ensures Pages(s, limit, PagesShown(|s|, limit)) == s
  {
    PagesAreAll(s, limit);
    if TotalPages(|s|, limit) == 0 {
      PagesArePrefix(s, limit, 1);
    }
  }

  /** All pages together show every announcement of every tenant as often as it is stored, newest first. */
  lemma GlobalPagesAreComplete(legacy: seq<Row>, tables: seq<seq<Row>>, limit: nat) returns (shown: seq<Row>)
    requires limit > 0
    ensures shown == Pages(GlobalMerged(legacy, tables), limit, PagesShown(|GlobalMerged(legacy, tables)|, limit))
    ensures SortedBy(shown, NewestFirst)
    ensures forall i, j :: 0 <= i < j < |shown| ==> shown[i].createdAt >= shown[j].createdAt
    ensures multiset(shown) == multiset(legacy) + multiset(Flatten(tables))
  {
    var all := GlobalMerged(legacy, tables);
    OneEmptyPage(all, limit);
    shown := all;
    OldestLast(shown);
  }

  /** Announcements of one instant stay in the order they were read. */
  lemma GlobalTiesKeepOrder(legacy: seq<Row>, tables: seq<seq<Row>>, k: int)
    ensures Ties(GlobalMerged(legacy, tables), NewestFirst, k)
            == Ties(legacy, NewestFirst, k) + Ties(Flatten(tables), NewestFirst, k)
  {
    SortIsStable(legacy + Flatten(tables), NewestFirst, k);
    TiesOfSum(legacy, Flatten(tables), NewestFirst, k);
  }
}
