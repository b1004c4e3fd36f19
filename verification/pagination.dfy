/**
 The pagination contract of the `/users` endpoint, as the suite's
 expectations pin it down. The arithmetic runs on the service; this module
 is a reference definition of it: a request names an optional `page` and an
 optional `per_page`; the response echoes the effective values, reports the
 size of the whole collection as `total`, and carries the slice of the
 collection that the page covers, which is empty past the end.
 */
module Pagination {
  import opened Optional

  const DefaultPage: int := 1
  const DefaultPerPage: int := 6

  /** The query string of one request: `?page=..&per_page=..`, each optional. */
  datatype PageQuery = PageQuery(page: Option<int>, perPage: Option<int>)

  const NoParams: PageQuery := PageQuery(None, None)

  datatype PageResponse<T> = PageResponse(page: int, perPage: int, total: nat, data: seq<T>)

  function Min(a: int, b: int): int {
    if a <= b then a else b
  }

  /** The value the service uses for one parameter: the requested one when
      it is present and positive, the default otherwise. */
  function Effective(requested: Option<int>, default: int): (v: int)
    requires default >= 1
    ensures v >= 1
    ensures requested.Some? && requested.value >= 1 ==> v == requested.value
    ensures requested.None? ==> v == default
  {
    match requested
    case Some(x) => if x >= 1 then x else default
    case None => default
  }

  /** Index of the first item on page `page` (pages are numbered from 1). */
  function PageStart(page: int, perPage: int): int {
    (page - 1) * perPage
  }

  /** The page `page` of `items` with `perPage` items per page: the echoed
      parameters, the total, and the items from `PageStart` up to the next
      page's start or the end of `items`, whichever comes first. */
  function Paginate<T>(items: seq<T>, page: int, perPage: int): (r: PageResponse<T>)
    requires page >= 1 && perPage >= 1
    ensures r.page == page && r.perPage == perPage && r.total == |items|
    ensures PageStart(page, perPage) < |items| ==>
      |r.data| == Min(perPage, |items| - PageStart(page, perPage))
    ensures PageStart(page, perPage) >= |items| ==> r.data == []
    ensures forall j :: 0 <= j < |r.data| ==> r.data[j] == items[PageStart(page, perPage) + j]
  {
    var start := PageStart(page, perPage);
    if start >= |items| then PageResponse(page, perPage, |items|, [])
    else PageResponse(page, perPage, |items|, items[start..Min(page * perPage, |items|)])
  }

  /** The service's answer to a query: absent parameters take the defaults
      `page = 1` and `per_page = 6`, present positive ones are used as sent. */
  function Serve<T>(items: seq<T>, q: PageQuery): (r: PageResponse<T>)
    ensures r.total == |items|
    ensures q.page.None? ==> r.page == DefaultPage
    ensures q.perPage.None? ==> r.perPage == DefaultPerPage
    ensures q.page.Some? && q.page.value >= 1 ==> r.page == q.page.value
    ensures q.perPage.Some? && q.perPage.value >= 1 ==> r.perPage == q.perPage.value
  {
    Paginate(items, Effective(q.page, DefaultPage), Effective(q.perPage, DefaultPerPage))
  }

  /** A page is full exactly when the collection reaches its last slot. */
  lemma FullPageIff<T>(items: seq<T>, page: int, perPage: int)
    requires page >= 1 && perPage >= 1
    ensures |Paginate(items, page, perPage).data| == perPage <==> page * perPage <= |items|
  {
  }

  /** A page is empty exactly when it starts at or past the end. */
  lemma EmptyPageIff<T>(items: seq<T>, page: int, perPage: int)
    requires page >= 1 && perPage >= 1
    ensures |Paginate(items, page, perPage).data| == 0 <==> PageStart(page, perPage) >= |items|
  {
  }

  /** The items of pages 1 to `n`, in page order. */
  function Pages<T>(items: seq<T>, perPage: int, n: nat): seq<T>
    requires perPage >= 1
  {
    if n == 0 then [] else Pages(items, perPage, n - 1) + Paginate(items, n, perPage).data
  }

  /** Pages 1 to `n` together are exactly the first `n * perPage` items (or
      all of them): no item is skipped, repeated or reordered. */
  lemma {:induction false} PagesArePrefix<T>(items: seq<T>, perPage: int, n: nat)
    requires perPage >= 1
    ensures Pages(items, perPage, n) == items[..Min(n * perPage, |items|)]
  {
    if n > 0 {
      PagesArePrefix(items, perPage, n - 1);
      var lo := Min((n - 1) * perPage, |items|);
      var hi := Min(n * perPage, |items|);
      var page := Paginate(items, n, perPage).data;
      assert (n - 1) * perPage + perPage == n * perPage;
      assert page == items[lo..hi];
      assert items[..lo] + items[lo..hi] == items[..hi];
    }
  }

  /** Number of pages needed to hold `total` items. */
  function PageCount(total: nat, perPage: int): nat
    requires perPage >= 1
  {
    (total + perPage - 1) / perPage
  }

  /** `PageCount` pages hold every item. */
  lemma PageCountSuffices(total: nat, perPage: int)
    requires perPage >= 1
    ensures PageCount(total, perPage) * perPage >= total
  {
    var a := total + perPage - 1;
    assert a == (a / perPage) * perPage + a % perPage;
    assert a % perPage < perPage;
  }

  /** Reading every page in order gives back the whole collection. */
  lemma PagesCoverAll<T>(items: seq<T>, perPage: int)
    requires perPage >= 1
    ensures Pages(items, perPage, PageCount(|items|, perPage)) == items
  {
    var n := PageCount(|items|, perPage);
    PagesArePrefix(items, perPage, n);
    PageCountSuffices(|items|, perPage);
    assert items[..|items|] == items;
  }

  /** Item `i` sits on page `i / perPage + 1` at offset `i % perPage`. */
  lemma ItemLocation<T>(items: seq<T>, perPage: int, i: int)
    requires perPage >= 1 && 0 <= i < |items|
    ensures var d := Paginate(items, i / perPage + 1, perPage).data;
      i % perPage < |d| && d[i % perPage] == items[i]
  {
    var page := i / perPage + 1;
    assert PageStart(page, perPage) + i % perPage == i;
    assert page * perPage > i;
  }
}
