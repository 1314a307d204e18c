/** Reading a list page by page: the slices of the services, and the loops that collect all pages. */
module Paging {
  function Min(a: int, b: int): int { if a < b then a else b }

  function Clamp(x: int, n: nat): (r: nat)
    ensures r <= n
  {
    if x < 0 then (if n + x < 0 then 0 else n + x) else Min(x, n)
  }

  /** The slice of a list as the runtime cuts it: bounds beyond the list are moved in, negative ones count from its end. */
  function Slice<T>(s: seq<T>, from: int, to: int): seq<T> {
    var a, b := Clamp(from, |s|), Clamp(to, |s|);
    if a < b then s[a..b] else []
  }

  function CalculateOffset(page: int, limit: nat): int {
    (page - 1) * limit
  }

  /** Page number page, counted from one. */
  function Page<T>(s: seq<T>, page: int, limit: nat): seq<T> {
    Slice(s, CalculateOffset(page, limit), CalculateOffset(page, limit) + limit)
  }

  /** The number of pages, rounded up. */
  function TotalPages(total: nat, limit: nat): nat
    requires limit > 0
  {
    (total + limit - 1) / limit
  }

  datatype Meta = Meta(page: int, limit: nat, total: nat, totalPages: nat, hasNextPage: bool, hasPreviousPage: bool)

  function CalculateMeta(page: int, limit: nat, total: nat): Meta
    requires limit > 0
  {
    Meta(page, limit, total, TotalPages(total, limit), page < TotalPages(total, limit), page > 1)
  }

  function Pages<T>(s: seq<T>, limit: nat, k: nat): seq<T> {
    if k == 0 then [] else Pages(s, limit, k - 1) + Page(s, k, limit)
  }

  /** Page k runs from offset (k - 1) * limit up to offset k * limit, cut at the end of the list. */
  lemma PageIsSlice<T>(s: seq<T>, k: nat, limit: nat)
    requires k > 0
    ensures 0 <= (k - 1) * limit <= k * limit
    ensures Page(s, k, limit) == s[Min((k - 1) * limit, |s|)..Min(k * limit, |s|)]
  {
    assert (k - 1) * limit + limit == k * limit;
    assert (k - 1) * limit >= 0;
  }

  /** Page zero is empty, and the page numbers below it count pages from the end of the list. */
  lemma PageBeforeFirst<T>(s: seq<T>, k: nat, limit: nat)
    ensures Page(s, 0, limit) == []
    ensures var from, to := |s| - (k + 2) * limit, |s| - (k + 1) * limit;
            Page(s, -1 - k, limit) == if limit == 0 || to <= 0 then [] else s[if from < 0 then 0 else from..to]
  {
    var page := -1 - k;
    assert (page - 1) * limit == -((k + 2) * limit);
    assert (page - 1) * limit + limit == -((k + 1) * limit);
    assert (k + 2) * limit == (k + 1) * limit + limit;
    assert (0 - 1) * limit + limit == 0;
  }

  /** The first k pages, one after the other, are the first k * limit elements. */
  lemma {:induction false} PagesArePrefix<T>(s: seq<T>, limit: nat, k: nat)
    ensures 0 <= k * limit
    ensures Pages(s, limit, k) == s[..Min(k * limit, |s|)]
  {
    if k > 0 {
      PagesArePrefix(s, limit, k - 1);
      PageIsSlice(s, k, limit);
    }
  }

  lemma TimesMonotone(a: int, b: int, k: nat)
    requires a <= b
    ensures a * k <= b * k
  {
  }

  lemma Quotient(n: nat, k: nat, q: int)
    requires k > 0
    ensures q < n / k <==> (q + 1) * k <= n
  {
    var d := n / k;
    assert n == d * k + n % k;
    if q < d {
      TimesMonotone(q + 1, d, k);
    } else {
      TimesMonotone(d + 1, q + 1, k);
      assert (d + 1) * k == d * k + k;
    }
  }

  lemma EnoughPages(total: nat, limit: nat, page: nat)
    requires limit > 0
    ensures page < TotalPages(total, limit) <==> page * limit < total
  {
    Quotient(total + limit - 1, limit, page);
    assert (page + 1) * limit == page * limit + limit;
  }

  /** The pages from the first to the last are the whole list, once and in order. */
  lemma PagesAreAll<T>(s: seq<T>, limit: nat)
    requires limit > 0
    ensures Pages(s, limit, TotalPages(|s|, limit)) == s
  {
    var k := TotalPages(|s|, limit);
    EnoughPages(|s|, limit, k);
    PagesArePrefix(s, limit, k);
  }

  lemma NextPageStarts<T>(s: seq<T>, page: nat, limit: nat)
    requires limit > 0
    ensures Page(s, page + 1, limit) != [] <==> page * limit < |s|
  {
    PageIsSlice(s, page + 1, limit);
    assert (page + 1) * limit == page * limit + limit;
  }

  /** hasNextPage says exactly whether elements remain after this page. */
  lemma NextPageIffMore<T>(s: seq<T>, page: nat, limit: nat)
    requires limit > 0 && page > 0
    ensures CalculateMeta(page, limit, |s|).hasNextPage <==> |Pages(s, limit, page)| < |s|
    ensures CalculateMeta(page, limit, |s|).hasNextPage <==> Page(s, page + 1, limit) != []
  {
    EnoughPages(|s|, limit, page);
    PagesArePrefix(s, limit, page);
    NextPageStarts(s, page, limit);
  }

  /** The meta of a page: so many pages that one fewer would leave elements out, and a page before iff pages are left. */
  lemma MetaIsRight(page: int, limit: nat, total: nat)
    requires limit > 0
    ensures var m := CalculateMeta(page, limit, total);
            && m.page == page && m.limit == limit && m.total == total
            && total <= m.totalPages * limit && (m.totalPages > 0 ==> (m.totalPages - 1) * limit < total)
            && (m.hasPreviousPage <==> page >= 2) && (m.hasNextPage <==> page + 1 <= m.totalPages)
  {
    EnoughPages(total, limit, TotalPages(total, limit));
    if TotalPages(total, limit) > 0 {
      EnoughPages(total, limit, TotalPages(total, limit) - 1);
    }
  }

  const BATCH: nat := 1000

  /** A query with skip and take. */
  function Fetch<T>(s: seq<T>, skip: nat, take: nat): seq<T> {
    s[Min(skip, |s|)..Min(skip + take, |s|)]
  }

  /** The batch loop of the export: all rows, in order, and one batch more than full batches. */
  method FetchAll<T>(rows: seq<T>) returns (allItems: seq<T>, batches: nat)
    ensures allItems == rows
    ensures batches == |rows| / BATCH + 1
  {
    allItems, batches := [], 0;
    var skip, hasMore := 0, true;
    while hasMore
      invariant hasMore ==> skip == batches * BATCH <= |rows| && allItems == rows[..skip]
      invariant !hasMore ==> allItems == rows && batches == |rows| / BATCH + 1
      decreases hasMore, |rows| - skip
    {
      var batch := Fetch(rows, skip, BATCH);
      batches := batches + 1;
      if |batch| > 0 {
        allItems := allItems + batch;
        skip := skip + BATCH;
        hasMore := |batch| == BATCH;
      } else {
        hasMore := false;
      }
    }
  }

  const TEAM_PAGE: nat := 25

  /** The loop over the pages of a manager's team: all members, in order. */
  method AllTeamMembers<T>(members: seq<T>) returns (all: seq<T>, calls: nat)
    ensures all == members
    ensures calls == if members == [] then 1 else TotalPages(|members|, TEAM_PAGE)
  {
    all, calls := [], 0;
    var page, hasMore := 1, true;
    while hasMore
      invariant page == calls + 1
      invariant hasMore ==> all == Pages(members, TEAM_PAGE, calls)
      invariant hasMore ==> calls == 0 || calls < TotalPages(|members|, TEAM_PAGE)
      invariant !hasMore ==> all == members
                             && calls == if members == [] then 1 else TotalPages(|members|, TEAM_PAGE)
      decreases hasMore, TotalPages(|members|, TEAM_PAGE) - calls
    {
      var items := Page(members, page, TEAM_PAGE);
      PagesArePrefix(members, TEAM_PAGE, page);
      EnoughPages(|members|, TEAM_PAGE, page);
      EnoughPages(|members|, TEAM_PAGE, calls);
      PageIsSlice(members, page, TEAM_PAGE);
      all := all + items;
      calls := calls + 1;
      hasMore := |items| == TEAM_PAGE && page < TotalPages(|members|, TEAM_PAGE);
      page := page + 1;
    }
  }

  /** The membership search over the same pages. */
  method VerifyTeamMember(members: seq<nat>, employee: nat) returns (found: bool)
    ensures found <==> employee in members
  {
    var page, hasMore := 1, true;
    while hasMore
      invariant page >= 1
      invariant hasMore ==> employee !in Pages(members, TEAM_PAGE, page - 1)
      invariant hasMore ==> page == 1 || page - 1 < TotalPages(|members|, TEAM_PAGE)
      invariant !hasMore ==> employee !in members
      decreases hasMore, TotalPages(|members|, TEAM_PAGE) - page
    {
      var items := Page(members, page, TEAM_PAGE);
      PagesArePrefix(members, TEAM_PAGE, page);
      EnoughPages(|members|, TEAM_PAGE, page);
      EnoughPages(|members|, TEAM_PAGE, page - 1);
      PageIsSlice(members, page, TEAM_PAGE);
      if employee in items {
        return true;
      }
      hasMore := |items| == TEAM_PAGE && page < TotalPages(|members|, TEAM_PAGE);
      page := page + 1;
    }
    return false;
  }
}
