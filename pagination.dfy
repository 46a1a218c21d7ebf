/**
 * The dashboard's paging of the recent transfers and of the suspicious
 * tokens table: five rows per page, pages numbered from 1, the last page
 * holding the remainder.
 */
module Pagination {
  const PerPage: nat := 5

  /** `total_pages = (total + per_page - 1) // per_page`: the fewest pages that hold `n` rows. */
  function TotalPages(n: nat): (p: nat)
    ensures p * PerPage >= n
    ensures p > 0 ==> (p - 1) * PerPage < n
  {
    (n + PerPage - 1) / PerPage
  }

  /** `start_idx = (current_page - 1) * per_page`. */
  function StartIndex(page: nat): nat
    requires page >= 1
  {
    (page - 1) * PerPage
  }

  /** `end_idx = min(start_idx + per_page, total)`. */
  function EndIndex(page: nat, n: nat): nat
    requires page >= 1
  {
    if StartIndex(page) + PerPage < n then StartIndex(page) + PerPage else n
  }

  /**
   * The rows a page shows, for a page the page selector offers
   * (`range(1, total_pages + 1)`): never empty and at most five rows, and
   * exactly five on every page but the last.
   */
  function PageOf<T>(xs: seq<T>, page: nat): (r: seq<T>)
    requires 1 <= page <= TotalPages(|xs|)
    ensures 0 < |r| <= PerPage
    ensures page < TotalPages(|xs|) ==> |r| == PerPage
    ensures StartIndex(page) + |r| == EndIndex(page, |xs|) <= |xs|
    ensures forall k :: 0 <= k < |r| ==> r[k] == xs[StartIndex(page) + k]
  {
    xs[StartIndex(page)..EndIndex(page, |xs|)]
  }

  /** The pages from `page` to the last, concatenated. */
  function PagesFrom<T>(xs: seq<T>, page: nat): seq<T>
    requires page >= 1
    decreases TotalPages(|xs|) + 1 - page
  {
    if page > TotalPages(|xs|) then [] else PageOf(xs, page) + PagesFrom(xs, page + 1)
  }

  /** The pages from `page` on show the rows from that page's start index on. */
  lemma {:induction false} PagesFromSpec<T>(xs: seq<T>, page: nat)
    requires 1 <= page <= TotalPages(|xs|)
    ensures PagesFrom(xs, page) == xs[StartIndex(page)..]
    decreases TotalPages(|xs|) - page
  {
    if page < TotalPages(|xs|) {
      PagesFromSpec(xs, page + 1);
      assert EndIndex(page, |xs|) == StartIndex(page + 1);
    } else {
      assert EndIndex(page, |xs|) == |xs|;
    }
  }

  /** Paging through all pages shows every row once, in order. */
  lemma AllPages<T>(xs: seq<T>)
    ensures PagesFrom(xs, 1) == xs
  {
    if TotalPages(|xs|) >= 1 {
      PagesFromSpec(xs, 1);
    }
  }
}
