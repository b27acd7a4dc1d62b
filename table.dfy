/** The `GenericTable` component's state and its two transitions.  The
    component keeps two pieces of state across renders, the page and the
    sort selection; everything else it shows is derived from them and from
    the props (`data`, `totalCount`, `pageSize`), which the caller may
    change between renders and which are therefore parameters here. */
module Table {
  import opened Values
  import opened Sorting
  import opened Paging
  import opened Columns

  class GenericTable {
    var page: nat
    var sortConfig: Option<SortConfig>

    /** A newly mounted table: first page, unsorted. */
    constructor ()
      ensures page == 0 && sortConfig == None
    {
      page := 0;
      sortConfig := None;
    }

    /** `handleSort(column)`: selects the column, toggling the direction
        when it was already selected ascending; the page stays. */
    method HandleSort(column: Key)
      modifies this
      ensures sortConfig == Some(NextSortConfig(old(sortConfig), column))
      ensures page == old(page)
    {
      var direction := Asc;
      if sortConfig.Some? && sortConfig.value.key == column && sortConfig.value.direction == Asc {
        direction := Desc;
      }
      sortConfig := Some(SortConfig(column, direction));
    }

    /** A click on a header: only a sortable header calls `handleSort`. */
    method ClickHeader<Node>(column: Column<Node>)
      modifies this
      ensures sortConfig == if column.sortable then Some(NextSortConfig(old(sortConfig), column.key))
                            else old(sortConfig)
      ensures page == old(page)
    {
      if column.sortable {
        HandleSort(column.key);
      }
    }

    /** `loadMore()`: the next page while fewer than `totalCount` items
        are counted as shown, nothing otherwise; the sort stays. */
    method LoadMore(pageSize: int, totalCount: int)
      modifies this
      ensures page == NextPage(old(page), pageSize, totalCount)
      ensures page == old(page) + 1 <==> CanLoadMore(old(page), pageSize, totalCount)
      ensures sortConfig == old(sortConfig)
    {
      if ShowingItemsCount(page, pageSize, totalCount) < totalCount {
        page := page + 1;
      }
    }

    /** The rows the body shows, in order: the sorted window of `data`.
        They are a permutation of the window, a prefix of `data`: the window
        itself when nothing is selected, and otherwise ordered by the
        selected key, with rows of equal key in their order in the window;
        with a non-negative page size there are as many as the window
        holds. */
    function Rows(data: seq<Row>, pageSize: int): (r: seq<Row>)
      reads this
      ensures |r| <= |data| && multiset(r) == multiset(data[..|r|])
      ensures multiset(r) <= multiset(data)
      ensures multiset(r) == multiset(DisplayedData(data, page, pageSize))
      ensures sortConfig.None? ==> r == DisplayedData(data, page, pageSize)
      ensures sortConfig.Some? ==> forall v ::
        WithValue(r, sortConfig.value.key, v) == WithValue(DisplayedData(data, page, pageSize), sortConfig.value.key, v)
      ensures sortConfig.Some? && sortConfig.value.direction == Asc ==>
        forall i, j :: 0 <= i < j < |r| ==> LessEq(Field(r[i], sortConfig.value.key), Field(r[j], sortConfig.value.key))
      ensures sortConfig.Some? && sortConfig.value.direction == Desc ==>
        forall i, j :: 0 <= i < j < |r| ==> LessEq(Field(r[j], sortConfig.value.key), Field(r[i], sortConfig.value.key))
      ensures pageSize >= 0 ==> |r| == Min((page + 1) * pageSize, |data|)
    {
      var displayed := DisplayedData(data, page, pageSize);
      assert data == displayed + data[|displayed|..];
      SortedData(displayed, sortConfig)
    }
  }

  /** Three clicks on the same sortable header of a new table select it
      ascending, then descending, then ascending again, and never move
      the page. */
  method ClickThreeTimes<Node>(column: Column<Node>) returns (first: Direction, second: Direction, third: Direction, page: nat)
    requires column.sortable
    ensures first == Asc && second == Desc && third == Asc
    ensures page == 0
  {
    var t := new GenericTable();
    t.ClickHeader(column);
    first := t.sortConfig.value.direction;
    t.ClickHeader(column);
    second := t.sortConfig.value.direction;
    t.ClickHeader(column);
    third := t.sortConfig.value.direction;
    page := t.page;
  }

  /** Loading more on a new table of 25 items with the default page size
      (ten to a page): two calls
      reveal all 25, a third changes nothing. */
  method LoadToEnd() returns (counts: seq<int>)
    ensures counts == [10, 20, 25, 25]
  {
    var t := new GenericTable();
    var pageSize := PageSizeProp(None);
    counts := [ShowingItemsCount(t.page, pageSize, 25)];
    t.LoadMore(pageSize, 25);
    counts := counts + [ShowingItemsCount(t.page, pageSize, 25)];
    t.LoadMore(pageSize, 25);
    counts := counts + [ShowingItemsCount(t.page, pageSize, 25)];
    t.LoadMore(pageSize, 25);
    counts := counts + [ShowingItemsCount(t.page, pageSize, 25)];
  }
}
