/** The list pages of the catalog, the roster and the loan register: ten rows
    a page, a current page that only moves to an existing page, and a filtered
    list the page is cut from. */
module Paging {
  import opened Common

  const ItemsPerPage: nat := 10

  /** `Math.ceil(list.length / itemsPerPage)`: the fewest pages that hold n
      rows. */
  function TotalPages(n: nat): (p: nat)
    ensures ItemsPerPage * p >= n
    ensures p == 0 || ItemsPerPage * (p - 1) < n
  {
    CeilDiv(n, ItemsPerPage)
  }

  /** `list.slice((page - 1) * itemsPerPage, (page - 1) * itemsPerPage +
      itemsPerPage)`: the rows of one page, cut short at the end of the list. */
  function PageSlice<T>(items: seq<T>, page: nat): (r: seq<T>)
    requires page >= 1
    ensures |r| == Max(0, Min(ItemsPerPage, |items| - (page - 1) * ItemsPerPage))
    ensures forall k :: 0 <= k < |r| ==> r[k] == items[(page - 1) * ItemsPerPage + k]
  {
    var start := Min((page - 1) * ItemsPerPage, |items|);
    items[start..Min(start + ItemsPerPage, |items|)]
  }

  /** Every row is shown on exactly one page that changePage accepts: row i
      on page i / 10 + 1, at position i % 10. */
  lemma PageOfIndex<T>(items: seq<T>, i: nat)
    requires i < |items|
    ensures 1 <= i / ItemsPerPage + 1 <= TotalPages(|items|)
    ensures var r := PageSlice(items, i / ItemsPerPage + 1);
      i % ItemsPerPage < |r| && r[i % ItemsPerPage] == items[i]
  {
    var p := i / ItemsPerPage + 1;
    var n := TotalPages(|items|);
    assert (p - 1) * ItemsPerPage + i % ItemsPerPage == i;
  }

  /** A page is non-empty exactly when changePage accepts it. */
  lemma PageNonEmpty<T>(items: seq<T>, page: nat)
    requires page >= 1
    ensures |PageSlice(items, page)| > 0 <==> page <= TotalPages(|items|)
  {
    var n := TotalPages(|items|);
    if page <= n {
      assert ItemsPerPage * (page - 1) <= ItemsPerPage * (n - 1);
    } else {
      assert ItemsPerPage * (page - 1) >= ItemsPerPage * n;
    }
  }

  /** The module state `currentPage` / `filteredX` of one list page. */
  class Pager<T> {
    var page: nat
    var filtered: seq<T>

    predicate Valid()
      reads this
    {
      page >= 1
    }

    constructor ()
      ensures Valid() && page == 1 && filtered == []
    {
      page := 1;
      filtered := [];
    }

    /** `loadX`: the whole stored list, on the page already current. */
    method Load(items: seq<T>)
      requires Valid()
      modifies this
      ensures Valid() && filtered == items && page == old(page)
    {
      filtered := items;
    }

    /** `applyFilters`: keep the rows the test accepts, in order, and go back
      to the first page. */
    method ApplyFilter(items: seq<T>, keep: T -> bool)
      modifies this
      ensures Valid() && filtered == Filter(items, keep) && page == 1
    {
      filtered := Filter(items, keep);
      page := 1;
    }

    /** `changePage`: a page outside 1..TotalPages is ignored. */
    method ChangePage(p: int)
      requires Valid()
      modifies this
      ensures Valid() && filtered == old(filtered)
      ensures 1 <= p <= TotalPages(|filtered|) ==> page == p
      ensures !(1 <= p <= TotalPages(|filtered|)) ==> page == old(page)
    {
      var total := TotalPages(|filtered|);
      if p < 1 || p > total {
        return;
      }
      page := p;
    }

    /** `displayX`: the rows of the current page. */
    function Shown(): (r: seq<T>)
      requires Valid()
      reads this
      ensures |r| == Max(0, Min(ItemsPerPage, |filtered| - (page - 1) * ItemsPerPage))
      ensures forall k :: 0 <= k < |r| ==> r[k] == filtered[(page - 1) * ItemsPerPage + k]
    {
      PageSlice(filtered, page)
    }
  }
}
