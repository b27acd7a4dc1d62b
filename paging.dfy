/** Incremental reveal of rows: the table shows the first
    `(page + 1) * pageSize` rows of `data`, and "load more" moves to the
    next page while fewer than `totalCount` items are counted as shown.
    `pageSize` and `totalCount` are JavaScript numbers the caller passes;
    they are taken here as integers of either sign. */
module Paging {
  import opened Values

  /** The value of `pageSize` when the caller passes none. */
  const DefaultPageSize: int := 10

  /** The `pageSize = 10` default of the props: only a missing value is
      replaced. */
  function PageSizeProp(given: Option<int>): (p: int)
    ensures given.None? ==> p == DefaultPageSize
    ensures given.Some? ==> p == given.value
  {
    match given
    case None => DefaultPageSize
    case Some(p) => p
  }

  function Min(a: int, b: int): int {
    if a < b then a else b
  }

  /** `Math.min((page + 1) * pageSize, totalCount)`. */
  function ShowingItemsCount(page: nat, pageSize: int, totalCount: int): (n: int)
    ensures n <= totalCount && n <= (page + 1) * pageSize
    ensures n == totalCount || n == (page + 1) * pageSize
  {
    Min((page + 1) * pageSize, totalCount)
  }

  /** Where `slice(0, end)` stops: a negative end counts back from the
      length, and the end never passes the length. */
  function SliceEnd(length: nat, end: int): (e: nat)
    ensures e <= length
    ensures end >= 0 ==> e == Min(end, length)
    ensures end < 0 ==> e + Min(-end, length) == length
  {
    if end < 0 then (if length + end < 0 then 0 else length + end)
    else Min(end, length)
  }

  /** `displayedData`: `data.slice(0, (page + 1) * pageSize)`, always a
      prefix of `data`; with a non-negative page size, the first
      `(page + 1) * pageSize` rows, or all rows if there are fewer; with a
      negative one, all but the last `-(page + 1) * pageSize` rows. */
  function DisplayedData<T>(data: seq<T>, page: nat, pageSize: int): (r: seq<T>)
    ensures |r| <= |data| && r == data[..|r|]
    ensures pageSize >= 0 ==> |r| == Min((page + 1) * pageSize, |data|)
    ensures pageSize < 0 ==> |r| + Min(-(page + 1) * pageSize, |data|) == |data|
  {
    data[..SliceEnd(|data|, (page + 1) * pageSize)]
  }

  /** The guard of `loadMore`, which is also when the "load more" control
      is shown. */
  predicate CanLoadMore(page: nat, pageSize: int, totalCount: int)
    ensures CanLoadMore(page, pageSize, totalCount) <==> (page + 1) * pageSize < totalCount
  {
    ShowingItemsCount(page, pageSize, totalCount) < totalCount
  }

  /** The page after one `loadMore()`. */
  function NextPage(page: nat, pageSize: int, totalCount: int): (p: nat)
    ensures CanLoadMore(page, pageSize, totalCount) ==> p == page + 1
    ensures !CanLoadMore(page, pageSize, totalCount) ==> p == page
  {
    if CanLoadMore(page, pageSize, totalCount) then page + 1 else page
  }

  /** The page after `n` calls of `loadMore()`. */
  function LoadMoreTimes(page: nat, n: nat, pageSize: int, totalCount: int): nat
    decreases n
  {
    if n == 0 then page
    else LoadMoreTimes(NextPage(page, pageSize, totalCount), n - 1, pageSize, totalCount)
  }

  /** With a non-negative page size the count never goes down. */
  lemma ShowingMonotone(page: nat, pageSize: int, totalCount: int)
    requires pageSize >= 0
    ensures ShowingItemsCount(NextPage(page, pageSize, totalCount), pageSize, totalCount)
         >= ShowingItemsCount(page, pageSize, totalCount)
  {
    assert (page + 2) * pageSize == (page + 1) * pageSize + pageSize;
  }

  /** Loading more keeps the rows already revealed and appends the next
      `pageSize` rows of `data`, as many as there are. */
  lemma LoadMoreAppends<T>(data: seq<T>, page: nat, pageSize: int, totalCount: int)
    requires pageSize >= 0
    requires CanLoadMore(page, pageSize, totalCount)
    ensures var before := DisplayedData(data, page, pageSize);
            DisplayedData(data, page + 1, pageSize)
              == before + data[|before|..Min(|before| + pageSize, |data|)]
  {
    assert (page + 2) * pageSize == (page + 1) * pageSize + pageSize;
  }

  /** The count of shown items is the number of rows displayed when
      `totalCount` is the length of `data`. */
  lemma DisplayedMatchesCount<T>(data: seq<T>, page: nat, pageSize: int)
    requires pageSize >= 0
    ensures |DisplayedData(data, page, pageSize)| == ShowingItemsCount(page, pageSize, |data|)
  {
  }

  /** `totalCount` is a prop of its own and need not be the length of
      `data`: with 30 rows fetched, a total of 254 and ten to a page, the
      fourth page counts 40 items while 30 rows are shown, and "load more"
      is still offered though every row is revealed. */
  lemma CountOutrunsRows<T>(data: seq<T>)
    requires |data| == 30
    ensures ShowingItemsCount(3, 10, 254) == 40
    ensures |DisplayedData(data, 3, 10)| == 30 && DisplayedData(data, 3, 10) == data
    ensures CanLoadMore(3, 10, 254)
  {
  }

  /** Once everything is counted as shown, any number of further calls
      leaves the page where it is. */
  lemma {:induction false} LoadMoreAtEndIsNoOp(page: nat, n: nat, pageSize: int, totalCount: int)
    requires !CanLoadMore(page, pageSize, totalCount)
    ensures LoadMoreTimes(page, n, pageSize, totalCount) == page
  {
    if n > 0 {
      LoadMoreAtEndIsNoOp(page, n - 1, pageSize, totalCount);
    }
  }

  /** With a positive page size, finitely many calls of `loadMore()` bring
      the count to `totalCount`. */
  lemma {:induction false} LoadMoreReachesTotal(page: nat, pageSize: int, totalCount: int)
    requires pageSize > 0
    ensures exists n: nat :: ShowingItemsCount(LoadMoreTimes(page, n, pageSize, totalCount), pageSize, totalCount) == totalCount
    decreases totalCount - (page + 1) * pageSize
  {
    if CanLoadMore(page, pageSize, totalCount) {
      assert (page + 2) * pageSize == (page + 1) * pageSize + pageSize;
      LoadMoreReachesTotal(page + 1, pageSize, totalCount);
      var n: nat :| ShowingItemsCount(LoadMoreTimes(page + 1, n, pageSize, totalCount), pageSize, totalCount) == totalCount;
      assert LoadMoreTimes(page, n + 1, pageSize, totalCount) == LoadMoreTimes(page + 1, n, pageSize, totalCount);
    } else {
      assert LoadMoreTimes(page, 0, pageSize, totalCount) == page;
    }
  }

  /** With a page size of zero or less the count never grows, so once the
      control is shown every call of `loadMore()` leaves it shown. */
  lemma LoadMoreNeverEndsWithoutPositivePageSize(page: nat, pageSize: int, totalCount: int)
    requires pageSize <= 0
    requires CanLoadMore(page, pageSize, totalCount)
    ensures CanLoadMore(NextPage(page, pageSize, totalCount), pageSize, totalCount)
  {
    assert (page + 2) * pageSize == (page + 1) * pageSize + pageSize;
  }
}
