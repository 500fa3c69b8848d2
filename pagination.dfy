/**
 * The admin lists' client-side pagination (ProductManagement.jsx and
 * SubCategoryManagement.jsx share it): five items a page, the current page
 * cut out of the list with `Array.prototype.slice`, `Math.ceil` for the page
 * count, and Previous / number / Next buttons shown only when the list does
 * not fit on one page.
 */
module Pagination {

  const ItemsPerPage: nat := 5

  function Min(a: int, b: int): int
  {
    if a <= b then a else b
  }

  /** How `slice` resolves an index: a negative one counts from the end, then it is clamped to the list. */
  function ResolveIndex(i: int, len: nat): (k: nat)
    ensures k <= len
    ensures 0 <= i ==> k == Min(i, len)
  {
    if i < 0 then (if len + i < 0 then 0 else len + i)
    else if i > len then len
    else i
  }

  /** `s.slice(start, end)`. */
  function Slice<T>(s: seq<T>, start: int, end: int): (r: seq<T>)
    ensures |r| <= |s|
    ensures 0 <= start <= end ==> r == s[Min(start, |s|)..Min(end, |s|)]
  {
    var from, to := ResolveIndex(start, |s|), ResolveIndex(end, |s|);
    if from < to then s[from..to] else []
  }

  /** `items.slice(indexOfFirstItem, indexOfLastItem)` for the current page. */
  function PageOf<T>(items: seq<T>, currentPage: int): (page: seq<T>)
    ensures |page| <= ItemsPerPage
  {
    var indexOfLastItem := currentPage * ItemsPerPage;
    var indexOfFirstItem := indexOfLastItem - ItemsPerPage;
    Slice(items, indexOfFirstItem, indexOfLastItem)
  }

  /** `Math.ceil(n / itemsPerPage)`, in integers: the least number of pages that hold `n` items. */
  function TotalPages(n: nat): (t: nat)
    ensures t * ItemsPerPage >= n
    ensures t == 0 || (t - 1) * ItemsPerPage < n
  {
    (n + ItemsPerPage - 1) / ItemsPerPage
  }

  /** Page `p` (counted from 1) is the window of at most five items that starts at item `(p - 1) * 5`. */
  lemma PageWindow<T>(items: seq<T>, p: int)
    requires p >= 1
    ensures var lo, hi := Min((p - 1) * ItemsPerPage, |items|), Min(p * ItemsPerPage, |items|);
      PageOf(items, p) == items[lo..hi]
    ensures |PageOf(items, p)| <= ItemsPerPage
  {
  }

  /** A page past the last one is empty (the current page can outlive a shrinking list). */
  lemma PageBeyondLastIsEmpty<T>(items: seq<T>, p: int)
    requires p > TotalPages(|items|)
    ensures PageOf(items, p) == []
  {
  }

  /** Every page from 1 to the page count shows at least one item. */
  lemma PageInRangeIsNonEmpty<T>(items: seq<T>, p: int)
    requires 1 <= p <= TotalPages(|items|)
    ensures PageOf(items, p) != []
  {
    PageWindow(items, p);
  }

  /** Pages 1 to `k`, one after the other. */
  function PagesUpTo<T>(items: seq<T>, k: nat): seq<T>
  {
    if k == 0 then [] else PagesUpTo(items, k - 1) + PageOf(items, k)
  }

  lemma {:induction false} PagesUpToIsPrefix<T>(items: seq<T>, k: nat)
    ensures PagesUpTo(items, k) == items[..Min(k * ItemsPerPage, |items|)]
  {
    if k > 0 {
      PagesUpToIsPrefix(items, k - 1);
      PageWindow(items, k);
      var lo, hi := Min((k - 1) * ItemsPerPage, |items|), Min(k * ItemsPerPage, |items|);
      assert items[..lo] + items[lo..hi] == items[..hi];
    }
  }

  /** Pages 1 to `totalPages` together are the whole list, in order: nothing is skipped or shown twice. */
  lemma PagesCoverList<T>(items: seq<T>)
    ensures PagesUpTo(items, TotalPages(|items|)) == items
  {
    PagesUpToIsPrefix(items, TotalPages(|items|));
  }

  /** `items.length > itemsPerPage`: the pagination bar is rendered. */
  predicate ShowsControls(n: nat)
  {
    n > ItemsPerPage
  }

  /** `disabled={currentPage === 1}` on Previous. */
  predicate PreviousDisabled(currentPage: int)
  {
    currentPage == 1
  }

  /** `disabled={currentPage === totalPages}` on Next. */
  predicate NextDisabled(currentPage: int, n: nat)
  {
    currentPage == TotalPages(n)
  }

  datatype Control = Previous | Next | PageNumber(page: int)

  /** The number buttons are 1 to `totalPages`. */
  predicate IsRendered(c: Control, n: nat)
  {
    c.PageNumber? ==> 1 <= c.page <= TotalPages(n)
  }

  /** `paginate(...)` behind each button; a disabled button does nothing. */
  function Click(currentPage: int, n: nat, c: Control): (page: int)
    ensures c == Previous ==> (page == currentPage <==> PreviousDisabled(currentPage)) && currentPage - 1 <= page <= currentPage
    ensures c == Next ==> (page == currentPage <==> NextDisabled(currentPage, n)) && currentPage <= page <= currentPage + 1
    ensures c.PageNumber? ==> page == c.page
  {
    match c
    case Previous => if PreviousDisabled(currentPage) then currentPage else currentPage - 1
    case Next => if NextDisabled(currentPage, n) then currentPage else currentPage + 1
    case PageNumber(k) => k
  }

  /** The bar appears exactly when there is more than one page. */
  lemma ControlsShownIffSeveralPages(n: nat)
    ensures ShowsControls(n) <==> TotalPages(n) >= 2
  {
  }

  /** Starting from a page in range, every click on a rendered button lands on a page in range. */
  lemma ClickStaysInRange(currentPage: int, n: nat, c: Control)
    requires ShowsControls(n) && 1 <= currentPage <= TotalPages(n)
    requires IsRendered(c, n)
    ensures 1 <= Click(currentPage, n, c) <= TotalPages(n)
  {
  }

  /**
   * A current page left beyond the last one (the list shrank under it) keeps
   * Next enabled, and Next moves further away while the page stays empty.
   */
  lemma NextBeyondLastMovesAway<T>(items: seq<T>, currentPage: int)
    requires currentPage > TotalPages(|items|)
    ensures !NextDisabled(currentPage, |items|)
    ensures Click(currentPage, |items|, Next) == currentPage + 1
    ensures PageOf(items, Click(currentPage, |items|, Next)) == []
  {
    PageBeyondLastIsEmpty(items, currentPage + 1);
  }
}
