/** Serving a collection page by page. */
module Paging {
  import opened Prelude

  /** The paging part of a request: `wantsJson` tells an API client from the web interface. */
  datatype Request = Request(pageSize: Option<nat>, page: Option<int>, wantsJson: bool)

  /** The limits of the collection; without a count of all rows, paging is always forced. */
  datatype Limits = Limits(maxPageSize: nat, defaultPageSize: nat, forcePagingFor: nat, skipCount: bool)

  datatype Paged =
    | Redirect(suggestedSize: nat)
    | Page(entries: seq<int>, page: Option<int>, size: Option<nat>, count: Option<int>)

  function Min(a: int, b: int): int {
    if a < b then a else b
  }

  /** LIMIT and OFFSET on the rows in their order; there is an offset only from the second page on. */
  function Slice(rows: seq<int>, page: int, pageSize: nat): seq<int> {
    var skip := if page > 1 then (page - 1) * pageSize else 0;
    if skip >= |rows| then [] else rows[skip..Min(|rows|, skip + pageSize)]
  }

  /** The count inferred from a short page. */
  function Inferred(rows: seq<int>, page: int, pageSize: nat): int {
    (page - 1) * pageSize + |Slice(rows, page, pageSize)|
  }

  /** Whether an API client that did not ask for paging is told to. */
  predicate MustRedirect(request: Request, limits: Limits, total: nat) {
    request.pageSize.None? && request.wantsJson && (limits.skipCount || total > limits.forcePagingFor)
  }

  /** The page size in effect; 0 stands for no paging. */
  function EffectiveSize(request: Request, limits: Limits): nat {
    if request.pageSize.Some? then Min(request.pageSize.value, limits.maxPageSize)
    else if !request.wantsJson then limits.defaultPageSize
    else 0
  }

  /**
   Serves a page, or everything. The total is given if it was counted, and inferred from a page that is not full
   otherwise.
   */
  method JsonCollection(rows: seq<int>, request: Request, limits: Limits) returns (r: Paged)
    ensures request.pageSize.None? && request.wantsJson ==>
      r == if limits.skipCount || |rows| > limits.forcePagingFor then Redirect(limits.defaultPageSize)
        else Page(rows, None, None, Some(|rows|))
    ensures request.pageSize.None? && !request.wantsJson && limits.defaultPageSize > 0 ==>
      r.Page? && r.size == Some(limits.defaultPageSize)
    ensures request.pageSize.Some? && request.pageSize.value > 0 && limits.maxPageSize > 0 ==>
      r.Page? && r.size.Some? && |r.entries| <= r.size.value &&
      r.size.value == if request.pageSize.value > limits.maxPageSize then limits.maxPageSize else request.pageSize.value
    ensures r.Redirect? <==> MustRedirect(request, limits, |rows|)
    ensures r.Redirect? ==> r.suggestedSize == limits.defaultPageSize
    ensures r.Page? ==>
      var size := EffectiveSize(request, limits);
      var page := if request.page.Some? then request.page.value else 1;
      && r.size == (if size == 0 then None else Some(size))
      && r.page == (if size == 0 then None else Some(page))
      && r.entries == (if size == 0 then rows else Slice(rows, page, size))
      && r.count ==
        if !limits.skipCount then Some(|rows|)
        else if |r.entries| < size then Some(Inferred(rows, page, size))
        else None
  {
    var count: Option<int> := None;
    var forcePaging := true;
    if !limits.skipCount {
      count := Some(|rows|);
      forcePaging := |rows| > limits.forcePagingFor;
    }
    var pageSize: nat := 0;
    if request.pageSize.Some? {
      pageSize := Min(request.pageSize.value, limits.maxPageSize);
    } else if !request.wantsJson {
      pageSize := limits.defaultPageSize;
    } else if forcePaging {
      return Redirect(limits.defaultPageSize);
    }
    if pageSize == 0 {
      return Page(rows, None, None, count);
    }
    var page := if request.page.Some? then request.page.value else 1;
    var entries := Slice(rows, page, pageSize);
    if |entries| < pageSize && count.None? {
      count := Some((page - 1) * pageSize + |entries|);
    }
    r := Page(entries, Some(page), Some(pageSize), count);
  }

  /** The first `n` pages one after the other. */
  function Pages(rows: seq<int>, pageSize: nat, n: nat): seq<int> {
    if n == 0 then [] else Pages(rows, pageSize, n - 1) + Slice(rows, n, pageSize)
  }

  lemma {:induction false} PagesArePrefix(rows: seq<int>, pageSize: nat, n: nat)
    requires pageSize >= 1
    ensures Pages(rows, pageSize, n) == rows[..Min(|rows|, n * pageSize)]
    decreases n
  {
    if n > 0 {
      PagesArePrefix(rows, pageSize, n - 1);
      var skip := (n - 1) * pageSize;
      assert n * pageSize == skip + pageSize;
      if skip < |rows| {
        var end := Min(|rows|, skip + pageSize);
        assert rows[..skip] + rows[skip..end] == rows[..end];
      }
    }
  }

  /** Enough pages, put together, give back all the rows: none is dropped and none is repeated. */
  lemma PagesPartition(rows: seq<int>, pageSize: nat, n: nat)
    requires pageSize >= 1
    ensures Pages(rows, pageSize, n) == rows <==> n * pageSize >= |rows|
  {
    PagesArePrefix(rows, pageSize, n);
    assert rows[..|rows|] == rows;
  }

  /** A row is on a page, in its place, if and only if its number says so; pages before the first show the first. */
  lemma RowIsOnPage(rows: seq<int>, page: int, pageSize: nat, i: nat)
    ensures
      var skip := if page > 1 then (page - 1) * pageSize else 0;
      && (i < |Slice(rows, page, pageSize)| <==> i < pageSize && skip + i < |rows|)
      && (i < |Slice(rows, page, pageSize)| ==> Slice(rows, page, pageSize)[i] == rows[skip + i])
  {
    assert page > 1 ==> (page - 1) * pageSize >= 0;
  }

  /**
   The count inferred from a short page is the true one exactly when the page is numbered from 1 and does not start
   beyond the end of the rows.
   */
  lemma InferredCountIsRight(rows: seq<int>, page: int, pageSize: nat)
    requires |Slice(rows, page, pageSize)| < pageSize
    ensures Inferred(rows, page, pageSize) == |rows| <==> page >= 1 && (page - 1) * pageSize <= |rows|
  {
    if page < 1 {
      assert (page - 1) * pageSize <= -1 * pageSize;
    }
  }

  /** Instances: a page beyond the end counts the rows that it skipped, and page 0 takes off a page. */
  lemma WrongCounts(row: int)
    ensures Inferred([], 2, 1) == 1
    ensures Inferred([row], 0, 2) == -1
  {
    assert Slice([], 2, 1) == [];
    assert Slice([row], 0, 2) == [row];
  }
}
