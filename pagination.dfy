/** Paging of the document list, mongo.php:674-679 and 725-740: 200
    documents a page, a skip of (page - 1) pages, ceil(total / 200) pages,
    a redirect back for a page past the last one, and a pager only when
    there is more than one page. */
module Pagination {
  import opened Results

  const PageSize := 200

  /** `$page`: the request's page number, 1 when absent. */
  function RequestedPage(param: Option<int>): (page: int)
    ensures param.None? ==> page == 1
    ensures param.Some? ==> page == param.value
  {
    param.GetOr(1)
  }

  /** `$skip = ($page - 1) * $max`. */
  function Skip(page: int): (skip: int)
    ensures skip % PageSize == 0
    ensures page >= 1 ==> skip >= 0
  {
    (page - 1) * PageSize
  }

  /** `ceil($total / $max)` on a non-negative count: the least number of
      pages that holds all documents. */
  function PageCount(total: nat): (pages: nat)
    ensures pages * PageSize >= total
    ensures pages == 0 || (pages - 1) * PageSize < total
  {
    (total + PageSize - 1) / PageSize
  }

  /** `$pages && $page > $pages`: the request is sent back to the referrer. */
  predicate RedirectsBack(page: int, pages: nat): (back: bool)
    ensures back ==> page > 1
  {
    pages != 0 && page > pages
  }

  /** `$pages > 1`: the pager is shown. */
  predicate ShowsPager(pages: nat): (shown: bool)
    ensures shown ==> pages >= 2
  {
    pages > 1
  }

  /** Consecutive pages list consecutive blocks of documents, the first
      starting at the first document. */
  lemma SkipAdvancesByPage(page: int)
    ensures Skip(1) == 0
    ensures Skip(page + 1) == Skip(page) + PageSize
    ensures page >= 1 ==> Skip(page) >= 0
  {
  }

  /** Counting pages gives no pages exactly for an empty collection. */
  lemma PageCountZeroIff(total: nat)
    ensures PageCount(total) == 0 <==> total == 0
  {
  }

  /** The request is sent back exactly when the collection is non-empty
      and the page would start past its last document; an empty
      collection never redirects, nor does a page number below 1. */
  lemma RedirectIffPastEnd(page: int, total: nat)
    ensures RedirectsBack(page, PageCount(total)) <==> total > 0 && Skip(page) >= total
  {
    var pages := PageCount(total);
    if total > 0 && page >= 1 {
      if page > pages {
        assert page - 1 >= pages;
        MulMonotone(pages, page - 1);
      } else {
        assert page - 1 <= pages - 1;
        MulMonotone(page - 1, pages - 1);
      }
    }
  }

  lemma MulMonotone(a: int, b: int)
    requires 0 <= a <= b
    ensures a * PageSize <= b * PageSize
  {
  }

  /** A request without a page number lists the first documents and is
      never sent back, whatever the collection holds. */
  lemma DefaultPageIsFirst(total: nat)
    ensures Skip(RequestedPage(None)) == 0
    ensures !RedirectsBack(RequestedPage(None), PageCount(total))
  {
  }

  /** The page after the last one is out of range. */
  lemma PageAfterLastRedirects(total: nat)
    requires total > 0
    ensures RedirectsBack(PageCount(total) + 1, PageCount(total))
  {
  }

  /** The pager appears exactly when the documents do not fit one page. */
  lemma PagerIffMoreThanOnePage(total: nat)
    ensures ShowsPager(PageCount(total)) <==> total > PageSize
  {
  }
}
