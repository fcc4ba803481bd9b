/** PixelMEDIA.PixelCore.PagedSortedList<T> and SortProperties: one page of a
    larger list together with its page bookkeeping. */
module PagedSortedListModel {
  import opened Wrappers
  import opened Int32
  import CollectionHelper

  /** System.ComponentModel.ListSortDirection. */
  datatype SortDirection = Ascending | Descending

  /** SortProperties: the field sorted on and the direction. */
  datatype SortProperties = SortProperties(sortField: Option<string>, direction: SortDirection)

  /** The ceiling of the rational a / b, for b != 0. */
  function CeilDiv(a: int, b: int): (r: int)
    requires b != 0
    ensures b > 0 ==> (r - 1) * b < a <= r * b
    ensures b < 0 ==> r * b <= a < (r - 1) * b
  {
    if b > 0 then
      var q := (-a) / b;
      assert -a == q * b + (-a) % b;
      assert (-q) * b == -(q * b);
      assert (-q - 1) * b == -(q * b) - b;
      -q
    else
      var q := a / (-b);
      assert a == q * (-b) + a % (-b);
      assert (-q) * b == q * (-b);
      assert (-q - 1) * b == q * (-b) - b;
      -q
  }

  /** A constructed list: the page's items and the fields SetProperties
      assigns. A null SortProperties or filter set is None. */
  datatype PagedSortedList<T> = PagedSortedList(
    items: seq<T>,
    hasPrevious: bool,
    hasNext: bool,
    currentPage: Int32,
    totalPages: Int32,
    totalItems: Int32,
    itemsPerPage: Int32,
    sortProperties: Option<SortProperties>,
    filters: Option<map<string, string>>)

  /** The TotalPages the constructor computes, or the OverflowException that
      Convert.ToInt32 throws: for itemsPerPage == 0 the double quotient is an
      infinity or NaN, and for int.MinValue / -1 the ceiling exceeds
      int.MaxValue. Two int32 operands divide exactly enough in double
      precision that Math.Ceiling gives the exact rational ceiling. */
  function TotalPagesOf(totalItems: Int32, itemsPerPage: Int32): (r: Result<Int32>)
    ensures itemsPerPage == 0 ==> r == Err(Overflow)
    ensures itemsPerPage != 0 && InRange(CeilDiv(totalItems, itemsPerPage)) ==>
              r == Ok(CeilDiv(totalItems, itemsPerPage))
    ensures itemsPerPage != 0 && !InRange(CeilDiv(totalItems, itemsPerPage)) ==> r == Err(Overflow)
  {
    if itemsPerPage == 0 then Err(Overflow)
    else
      var c := CeilDiv(totalItems, itemsPerPage);
      if InRange(c) then Ok(c) else Err(Overflow)
  }

  /** The constructor PagedSortedList(collection, currentPage, itemsPerPage,
      totalItems, sortProperties, filters), including SetProperties. The
      product currentPage * itemsPerPage is C#'s unchecked 32-bit product. */
  function New<T>(collection: seq<T>, currentPage: Int32, itemsPerPage: Int32, totalItems: Int32,
                  sortProperties: Option<SortProperties>, filters: Option<map<string, string>>)
    : (r: Result<PagedSortedList<T>>)
    ensures r.Err? <==> TotalPagesOf(totalItems, itemsPerPage).Err?
    ensures r.Err? ==> r.fault == Overflow
    ensures r.Ok? ==>
              && r.value.items == collection
              && (r.value.hasPrevious <==> currentPage > 1)
              && (r.value.hasNext <==> totalItems > Wrap(currentPage * itemsPerPage))
              && r.value.currentPage == currentPage
              && r.value.totalItems == totalItems
              && r.value.itemsPerPage == itemsPerPage
              && r.value.totalPages == TotalPagesOf(totalItems, itemsPerPage).value
              && r.value.sortProperties == sortProperties
              && r.value.filters == filters
  {
    match TotalPagesOf(totalItems, itemsPerPage)
    case Err(f) => Err(f)
    case Ok(pages) =>
      Ok(PagedSortedList(collection, currentPage > 1, totalItems > Wrap(currentPage * itemsPerPage),
                         currentPage, pages, totalItems, itemsPerPage, sortProperties, filters))
  }

  /** When the 32-bit product does not overflow, HasNext compares the item
      count with the exact product, for page numbers and sizes of any sign. */
  lemma HasNextWithoutOverflow<T>(collection: seq<T>, currentPage: Int32, itemsPerPage: Int32, totalItems: Int32,
                                  sortProperties: Option<SortProperties>, filters: Option<map<string, string>>)
    requires itemsPerPage != 0 && InRange(CeilDiv(totalItems, itemsPerPage))
    requires InRange(currentPage * itemsPerPage)
    ensures var r := New(collection, currentPage, itemsPerPage, totalItems, sortProperties, filters);
            r.Ok? && (r.value.hasNext <==> totalItems > currentPage * itemsPerPage)
  {
  }

  /** With a positive page size, TotalPages is the least page count whose pages
      hold all items. */
  lemma TotalPagesIsCeiling<T>(collection: seq<T>, currentPage: Int32, itemsPerPage: Int32, totalItems: Int32,
                               sortProperties: Option<SortProperties>, filters: Option<map<string, string>>)
    requires itemsPerPage > 0 && totalItems >= 0
    ensures var r := New(collection, currentPage, itemsPerPage, totalItems, sortProperties, filters);
            && r.Ok?
            && r.value.totalPages * itemsPerPage >= totalItems
            && (r.value.totalPages - 1) * itemsPerPage < totalItems
  {
    var c := CeilDiv(totalItems, itemsPerPage);
    if c < 0 {
      MulAtLeast(-c, itemsPerPage);
      assert false;
    } else if c > totalItems {
      MulMonotone(totalItems, c - 1, itemsPerPage);
      if totalItems > 0 { MulAtLeast(itemsPerPage, totalItems); }
      assert false;
    }
  }

  /** Without overflow, HasNext says exactly that the current page is not the
      last one. */
  lemma HasNextIffBeforeLastPage<T>(collection: seq<T>, currentPage: Int32, itemsPerPage: Int32, totalItems: Int32,
                                    sortProperties: Option<SortProperties>, filters: Option<map<string, string>>)
    requires itemsPerPage > 0 && totalItems >= 0 && currentPage >= 0
    requires InRange(currentPage * itemsPerPage)
    ensures var r := New(collection, currentPage, itemsPerPage, totalItems, sortProperties, filters);
            r.Ok? && (r.value.hasNext <==> currentPage < r.value.totalPages)
  {
    TotalPagesIsCeiling(collection, currentPage, itemsPerPage, totalItems, sortProperties, filters);
    var pages := CeilDiv(totalItems, itemsPerPage);
    if currentPage < pages {
      MulMonotone(currentPage, pages - 1, itemsPerPage);
    } else {
      MulMonotone(pages, currentPage, itemsPerPage);
    }
  }

  /** HasNext agrees with the slicing counterpart: it holds exactly when
      CollectionHelper.TakePage finds a non-empty next page in a collection of
      TotalItems elements. */
  lemma HasNextIffNextPageNonEmpty<T>(all: seq<T>, page: seq<T>, currentPage: Int32, itemsPerPage: Int32,
                                      sortProperties: Option<SortProperties>, filters: Option<map<string, string>>)
    requires itemsPerPage > 0 && currentPage >= 1 && InRange(|all|)
    requires InRange((currentPage + 1) * itemsPerPage)
    ensures var r := New(page, currentPage, itemsPerPage, |all|, sortProperties, filters);
            r.Ok? && (r.value.hasNext <==> CollectionHelper.TakePage(all, currentPage + 1, itemsPerPage) != [])
  {
    TotalPagesIsCeiling(page, currentPage, itemsPerPage, |all|, sortProperties, filters);
    MulMonotone(currentPage, currentPage + 1, itemsPerPage);
    MulMonotone(0, currentPage, itemsPerPage);
    assert (currentPage + 1) * itemsPerPage == currentPage * itemsPerPage + itemsPerPage;
    CollectionHelper.TakePageSlice(all, currentPage + 1, itemsPerPage);
  }

  /** 25 items at 10 per page: three pages; page 1 has a next page but no
      previous one, page 3 the reverse. */
  lemma TwentyFiveItemsExample<T>(page: seq<T>)
    ensures var first := New(page, 1, 10, 25, None, None);
            first.Ok? && first.value.totalPages == 3 && !first.value.hasPrevious && first.value.hasNext
    ensures var last := New(page, 3, 10, 25, None, None);
            last.Ok? && last.value.totalPages == 3 && last.value.hasPrevious && !last.value.hasNext
  {
  }

  /** int.MinValue items at -1 per page: the ceiling 2^31 does not fit, so
      Convert.ToInt32 throws. */
  lemma MinValueOverMinusOneOverflows<T>(page: seq<T>)
    ensures New(page, 1, -1, MinValue, None, None) == Err(Overflow)
  {
  }
}
