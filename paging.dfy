/** The paginated listing endpoints of the hosting API, as cmd/list-open-prs-org/main.go
    consumes them: a request names a page number (0 leaves `Page` unset, which asks for the
    first page) and the response carries one page of items and `NextPage`, which is 0 when
    there are no further pages. The network is abstracted into a function from page number
    to response. */
module Paging {
  import opened Results

  /** Whatever error a listing call returns. */
  datatype ApiError = ApiError(message: string)

  /** One successful response: the items of the page and `resp.NextPage`. */
  datatype Page<T> = Page(items: seq<T>, nextPage: nat)

  /** A paginated endpoint with fixed request options: `fetch(p)` is the response to a request
      with `Page = p`; `pageCount` is the number of pages the server holds. */
  datatype Listing<T> = Listing(fetch: nat -> Result<Page<T>, ApiError>, pageCount: nat)

  /** What the client relies on to stop: a `NextPage` other than 0 always points past the page
      that returned it and never past the last page. */
  ghost predicate Forward<T>(l: Listing<T>)
  {
    forall p: nat :: l.fetch(p).Success? && l.fetch(p).value.nextPage != 0 ==>
      p < l.fetch(p).value.nextPage <= l.pageCount
  }

  /** The client loop `for { items, resp, err := List(opts); ...; if resp.NextPage == 0 { break };
      opts.Page = resp.NextPage }` started at `page`: the items of every page in request order,
      or the first error. */
  function Fetch<T>(l: Listing<T>, page: nat): Result<seq<T>, ApiError>
    requires Forward(l) && page <= l.pageCount
    decreases l.pageCount - page
  {
    match l.fetch(page)
    case Failure(e) => Failure(e)
    case Success(p) =>
      if p.nextPage == 0 then Success(p.items) else Prepend(p.items, Fetch(l, p.nextPage))
  }

  /** The page numbers that loop requests, in order, one request per page; at most one more
      request than there are pages after `page`. */
  function Requests<T>(l: Listing<T>, page: nat): (r: seq<nat>)
    requires Forward(l) && page <= l.pageCount
    ensures 1 <= |r| <= l.pageCount - page + 1
    ensures r[0] == page
    decreases l.pageCount - page
  {
    match l.fetch(page)
    case Failure(_) => [page]
    case Success(p) =>
      if p.nextPage == 0 then [page] else [page] + Requests(l, p.nextPage)
  }

  /** The request sequence follows `NextPage`: every request but the last was served with a
      `NextPage` other than 0, and the next request asks for exactly that page; the last
      request failed or was served with `NextPage` 0, so the loop stops exactly there. */
  lemma {:induction false} RequestsFollowNextPage<T>(l: Listing<T>, page: nat)
    requires Forward(l) && page <= l.pageCount
    ensures var r := Requests(l, page);
      forall k :: 0 <= k < |r| - 1 ==>
        l.fetch(r[k]).Success? && l.fetch(r[k]).value.nextPage != 0 &&
        l.fetch(r[k]).value.nextPage == r[k + 1]
    ensures var r := Requests(l, page);
      l.fetch(r[|r| - 1]).Failure? || l.fetch(r[|r| - 1]).value.nextPage == 0
    decreases l.pageCount - page
  {
    var r := Requests(l, page);
    if l.fetch(page).Success? && l.fetch(page).value.nextPage != 0 {
      var next := l.fetch(page).value.nextPage;
      var tail := Requests(l, next);
      RequestsFollowNextPage(l, next);
      assert r == [page] + tail;
      forall k | 0 <= k < |r| - 1
        ensures l.fetch(r[k]).Success? && l.fetch(r[k]).value.nextPage != 0 &&
                l.fetch(r[k]).value.nextPage == r[k + 1]
      {
        if k > 0 {
          assert r[k] == tail[k - 1] && r[k + 1] == tail[k];
        }
      }
      assert r[|r| - 1] == tail[|tail| - 1];
    } else {
      assert r == [page];
    }
  }

  /** No request asks for a page before the one the loop started at. */
  lemma {:induction false} RequestsNotBefore<T>(l: Listing<T>, page: nat)
    requires Forward(l) && page <= l.pageCount
    ensures forall k :: 0 <= k < |Requests(l, page)| ==> page <= Requests(l, page)[k]
    decreases l.pageCount - page
  {
    var r := Requests(l, page);
    if l.fetch(page).Success? && l.fetch(page).value.nextPage != 0 {
      var next := l.fetch(page).value.nextPage;
      var tail := Requests(l, next);
      RequestsNotBefore(l, next);
      assert r == [page] + tail;
      forall k | 0 <= k < |r| ensures page <= r[k] {
        if k > 0 {
          assert r[k] == tail[k - 1];
        }
      }
    } else {
      assert r == [page];
    }
  }

  /** The requested page numbers strictly increase, so no page is requested twice. */
  lemma {:induction false} RequestsStrictlyIncrease<T>(l: Listing<T>, page: nat)
    requires Forward(l) && page <= l.pageCount
    ensures forall i, j :: 0 <= i < j < |Requests(l, page)| ==> Requests(l, page)[i] < Requests(l, page)[j]
    decreases l.pageCount - page
  {
    var r := Requests(l, page);
    if l.fetch(page).Success? && l.fetch(page).value.nextPage != 0 {
      var next := l.fetch(page).value.nextPage;
      var tail := Requests(l, next);
      RequestsStrictlyIncrease(l, next);
      RequestsNotBefore(l, next);
      assert r == [page] + tail;
      forall i, j | 0 <= i < j < |r| ensures r[i] < r[j] {
        assert r[j] == tail[j - 1];
        if i > 0 {
          assert r[i] == tail[i - 1];
        }
      }
    } else {
      assert r == [page];
    }
  }

  /** One step of the request sequence. */
  lemma RequestsStep<T>(l: Listing<T>, page: nat)
    requires Forward(l) && page <= l.pageCount
    ensures l.fetch(page).Success? && l.fetch(page).value.nextPage != 0 ==>
      Requests(l, page) == [page] + Requests(l, l.fetch(page).value.nextPage)
    ensures l.fetch(page).Failure? || l.fetch(page).value.nextPage == 0 ==>
      Requests(l, page) == [page]
  {
  }

  /** A log of the requests made so far, extended by the request for `page`, is a prefix of the
      whole request sequence; it is all of it when that request fails or returns `NextPage` 0. */
  lemma RequestLogStep<T>(l: Listing<T>, start: nat, log: seq<nat>, page: nat)
    requires Forward(l) && start <= l.pageCount && page <= l.pageCount
    requires Requests(l, start) == log + Requests(l, page)
    ensures log + [page] <= Requests(l, start)
    ensures l.fetch(page).Success? && l.fetch(page).value.nextPage != 0 ==>
      Requests(l, start) == (log + [page]) + Requests(l, l.fetch(page).value.nextPage)
    ensures l.fetch(page).Failure? || l.fetch(page).value.nextPage == 0 ==>
      Requests(l, start) == log + [page]
  {
    RequestsStep(l, page);
    var rest := Requests(l, page);
    var head := log + [page];
    assert rest == [page] + rest[1..];
    assert log + rest == head + rest[1..];
    assert (head + rest[1..])[..|head|] == head;
  }

  /** Every page in `pages` is served without error. */
  predicate AllServed<T>(l: Listing<T>, pages: seq<nat>)
  {
    forall k :: 0 <= k < |pages| ==> l.fetch(pages[k]).Success?
  }

  /** The items of the pages numbered `pages`, concatenated in that order. */
  function ItemsAt<T>(l: Listing<T>, pages: seq<nat>): seq<T>
    requires AllServed(l, pages)
  {
    if pages == [] then [] else l.fetch(pages[0]).value.items + ItemsAt(l, pages[1..])
  }

  /** The loop succeeds exactly when every page it requests is served. */
  lemma {:induction false} FetchSucceedsIffAllServed<T>(l: Listing<T>, page: nat)
    requires Forward(l) && page <= l.pageCount
    ensures Fetch(l, page).Success? <==> AllServed(l, Requests(l, page))
    decreases l.pageCount - page
  {
    var rs := Requests(l, page);
    if l.fetch(page).Success? && l.fetch(page).value.nextPage != 0 {
      var next := l.fetch(page).value.nextPage;
      var tail := Requests(l, next);
      FetchSucceedsIffAllServed(l, next);
      assert rs == [page] + tail;
      if Fetch(l, page).Success? {
        assert Fetch(l, next).Success?;
        forall k | 0 <= k < |rs| ensures l.fetch(rs[k]).Success? {
          if k > 0 {
            assert rs[k] == tail[k - 1];
          }
        }
      } else {
        var j :| 0 <= j < |tail| && !l.fetch(tail[j]).Success?;
        assert rs[j + 1] == tail[j];
      }
    } else {
      assert rs == [page];
      if l.fetch(page).Failure? {
        assert !l.fetch(rs[0]).Success?;
      } else {
        assert Fetch(l, page).Success? && l.fetch(rs[0]).Success?;
      }
    }
  }

  /** On success the result is the concatenation of the requested pages in request order. */
  lemma {:induction false} FetchConcatenatesRequestedPages<T>(l: Listing<T>, page: nat)
    requires Forward(l) && page <= l.pageCount
    requires Fetch(l, page).Success?
    ensures AllServed(l, Requests(l, page))
    ensures Fetch(l, page).value == ItemsAt(l, Requests(l, page))
    decreases l.pageCount - page
  {
    FetchSucceedsIffAllServed(l, page);
    var rs := Requests(l, page);
    var p := l.fetch(page).value;
    if p.nextPage == 0 {
      assert rs == [page];
      assert ItemsAt(l, rs) == p.items + ItemsAt(l, []);
    } else {
      var tail := Requests(l, p.nextPage);
      FetchConcatenatesRequestedPages(l, p.nextPage);
      assert rs == [page] + tail;
      assert rs[1..] == tail;
    }
  }

  /** On failure the error is the one returned by the last request. */
  lemma {:induction false} FetchFailsWithLastRequest<T>(l: Listing<T>, page: nat)
    requires Forward(l) && page <= l.pageCount
    requires Fetch(l, page).Failure?
    ensures var rs := Requests(l, page);
      l.fetch(rs[|rs| - 1]) == Failure(Fetch(l, page).error)
    decreases l.pageCount - page
  {
    var rs := Requests(l, page);
    if l.fetch(page).Success? {
      var next := l.fetch(page).value.nextPage;
      var tail := Requests(l, next);
      FetchFailsWithLastRequest(l, next);
      assert rs == [page] + tail;
      assert rs[|rs| - 1] == tail[|tail| - 1];
    }
  }
}
