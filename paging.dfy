/** The paginator of the artworks table: the zero-based page index and the
    page size, and the request they turn into. */
module Paging {

  /** The page on display and the number of rows per page. */
  datatype Paging = Paging(page: int, rows: int)

  /** The query sent to the catalogue: a one-based page number and a limit. */
  datatype Request = Request(pageNumber: int, limit: int)

  /** A paginator event asking for page `evPage` at `evRows` rows: a new page
      size starts again from the first page, otherwise the asked-for page is
      shown at the same size. */
  function OnPage(p: Paging, evPage: int, evRows: int): (r: Paging)
    ensures r.rows == evRows
    ensures evRows != p.rows ==> r.page == 0
    ensures evRows == p.rows ==> r.page == evPage
  {
    if evRows != p.rows then Paging(0, evRows) else Paging(evPage, p.rows)
  }

  /** The catalogue counts pages from one, the paginator from zero. */
  function RequestFor(p: Paging): (r: Request)
    ensures r.limit == p.rows
    ensures r.pageNumber == p.page + 1
    ensures 0 <= p.page ==> 1 <= r.pageNumber
  {
    Request(p.page + 1, p.rows)
  }

  /** After any paginator event for a page index of zero or more, the
      request asks for the new page size and a page number of at least one:
      page one when the size changed, the asked-for index plus one
      otherwise. */
  lemma RequestAfterEvent(p: Paging, evPage: int, evRows: int)
    requires 0 <= evPage
    ensures RequestFor(OnPage(p, evPage, evRows)).limit == evRows
    ensures 1 <= RequestFor(OnPage(p, evPage, evRows)).pageNumber
    ensures evRows != p.rows ==> RequestFor(OnPage(p, evPage, evRows)) == Request(1, evRows)
    ensures evRows == p.rows ==> RequestFor(OnPage(p, evPage, evRows)).pageNumber == evPage + 1
  {
  }

  /** The same paginator event twice in a row leaves the paginator where
      the second one puts it, whatever the state before. */
  lemma OnPageTwice(p: Paging, evPage: int, evRows: int)
    ensures OnPage(OnPage(p, evPage, evRows), evPage, evRows) == Paging(evPage, evRows)
  {
  }
}
