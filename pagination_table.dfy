/** The state of the artworks table component and the handlers that change
    it. Each handler runs as one step; the page load receives the fetched
    records' ids in place of the network call. */
module Table {
  import opened JsArray
  import opened Selection
  import opened Paging

  /** What a page fetch produced: the ids of the records on the page and the
      total record count, or a failure of the request or of its decoding. */
  datatype Response = Loaded(ids: seq<int>, total: int) | Failed

  class PaginationTable {
    var pageIds: seq<int>         // ids of the records on display
    var totalRecords: int
    var loading: bool
    var page: int                 // zero-based, as the paginator counts
    var rows: int
    var selected: seq<int>        // selected ids, in the order they were selected
    var target: Option<int>       // the number typed into the "select rows" box
    var remaining: int            // ids still to be selected from later pages

    /** The selection holds each id once and the quota is not negative. */
    ghost predicate Valid()
      reads this
    {
      NoDup(selected) && 0 <= remaining
    }

    /** The table as first shown: no records, first page of five rows,
        nothing selected, no target and no quota. */
    constructor ()
      ensures Valid()
      ensures pageIds == [] && totalRecords == 0 && !loading
      ensures page == 0 && rows == 5
      ensures selected == [] && target == None && remaining == 0
    {
      pageIds, totalRecords, loading := [], 0, false;
      page, rows := 0, 5;
      selected, target, remaining := [], None, 0;
    }

    /** A page fetch completes. On success the records and the total are
        replaced and a pending quota is served from the new page; on failure
        everything stays as it was. Either way the loading flag ends cleared. */
    method LoadPage(response: Response)
      modifies this`pageIds, this`totalRecords, this`loading, this`selected, this`remaining
      ensures !loading
      ensures response.Failed? ==>
                && pageIds == old(pageIds) && totalRecords == old(totalRecords)
                && selected == old(selected) && remaining == old(remaining)
      ensures response.Loaded? ==>
                && pageIds == response.ids && totalRecords == response.total
                && Carry(selected, remaining) == FillQuota(old(selected), old(remaining), response.ids)
      ensures old(Valid()) && (response.Loaded? ==> NoDup(response.ids)) ==> Valid()
    {
      loading := true;
      match response {
        case Failed =>
        case Loaded(ids, total) =>
          pageIds, totalRecords := ids, total;
          var c := FillQuota(selected, remaining, ids);
          selected, remaining := c.selected, c.remaining;
      }
      loading := false;
    }

    /** The paginator asks for another page or another page size. */
    method PageChange(evPage: int, evRows: int)
      modifies this`page, this`rows
      ensures Paging(page, rows) == OnPage(Paging(old(page), old(rows)), evPage, evRows)
    {
      if evRows != rows {
        rows := evRows;
        page := 0;
      } else {
        page := evPage;
      }
    }

    /** A row's checkbox is clicked. */
    method ToggleRow(id: int)
      modifies this`selected
      ensures selected == Toggle(old(selected), id)
      ensures old(Valid()) ==> Valid()
    {
      selected := Toggle(selected, id);
    }

    /** The header checkbox reports `checked`: the page's ids are added to the
        selection, or removed from it. */
    method HeaderChange(checked: bool)
      modifies this`selected
      ensures selected == if checked then CheckPage(old(selected), pageIds)
                          else UncheckPage(old(selected), pageIds)
      ensures old(Valid()) ==> Valid()
    {
      if checked {
        selected := CheckPage(selected, pageIds);
      } else {
        selected := UncheckPage(selected, pageIds);
      }
    }

    /** A number is typed into the "select rows" box. */
    method SetTarget(n: int)
      modifies this`target
      ensures target == Some(n)
    {
      target := Some(n);
    }

    /** The "select" button: the first unselected rows on display, up to the
        target, are selected and the rest of the target is carried to later
        pages. */
    method SubmitSelectFirst()
      modifies this`selected, this`remaining
      ensures Carry(selected, remaining) == SelectFirst(old(selected), old(remaining), pageIds, target)
      ensures old(Valid()) && NoDup(pageIds) && (target.Some? ==> 0 <= target.value) ==> Valid()
    {
      var c := SelectFirst(selected, remaining, pageIds, target);
      selected, remaining := c.selected, c.remaining;
    }
  }
}
