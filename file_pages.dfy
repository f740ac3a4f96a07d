/**
 * Paging of the sorted listing: the page count `Math.ceil(n / FilesPerPage)`,
 * the page `sortedFiles.slice((currentPage - 1) * FilesPerPage, currentPage * FilesPerPage)`
 * and the Previous/Next controls.
 */
module FilePages {

  const FILES_PER_PAGE: nat := 250

  function Min(a: int, b: int): int {
    if a <= b then a else b
  }

  /** `Math.ceil(x)`: the least integer not below `x`. */
  function Ceil(x: real): (c: int)
    ensures c as real - 1.0 < x <= c as real
  {
    -((-x).Floor)
  }

  /** `Math.ceil(count / FilesPerPage)`: the fewest pages of 250 that hold `count` entries. */
  function TotalPages(count: nat): (pages: nat)
    ensures (pages - 1) * FILES_PER_PAGE < count <= pages * FILES_PER_PAGE
    ensures pages == 0 <==> count == 0
  {
    var x := count as real / FILES_PER_PAGE as real;
    var c := Ceil(x);
    assert x * 250.0 == count as real;
    assert (c - 1) as real * 250.0 < count as real <= c as real * 250.0;
    assert ((c - 1) * 250) as real == (c - 1) as real * 250.0;
    assert (c * 250) as real == c as real * 250.0;
    c
  }

  /**
   * How `Array.prototype.slice` reads an index against a length:
   * a negative index counts back from the end, and the result is clamped to [0, len].
   */
  function RelativeIndex(i: int, len: nat): (k: nat)
    ensures k <= len
    ensures 0 <= i ==> k == Min(i, len)
    ensures i < 0 ==> k == if len + i < 0 then 0 else len + i
  {
    if i < 0 then (if len + i < 0 then 0 else len + i)
    else if i > len then len
    else i
  }

  /** `s.slice(start, end)`: empty when the end falls at or before the start. */
  function JsSlice<T>(s: seq<T>, start: int, end: int): (r: seq<T>)
    ensures |r| <= |s|
  {
    var from := RelativeIndex(start, |s|);
    var to := RelativeIndex(end, |s|);
    if from < to then s[from..to] else []
  }

  /** The entries shown on page `currentPage`. */
  function PageOf<T>(sorted: seq<T>, currentPage: int): (rows: seq<T>)
    ensures |rows| <= FILES_PER_PAGE && |rows| <= |sorted|
  {
    JsSlice(sorted, (currentPage - 1) * FILES_PER_PAGE, currentPage * FILES_PER_PAGE)
  }

  /** Page `p` (counted from 1) is the run of at most 250 entries starting at `(p - 1) * 250`. */
  lemma PageContents<T>(sorted: seq<T>, p: int)
    requires p >= 1
    ensures Min((p - 1) * FILES_PER_PAGE, |sorted|) <= Min(p * FILES_PER_PAGE, |sorted|)
    ensures PageOf(sorted, p) == sorted[Min((p - 1) * FILES_PER_PAGE, |sorted|)..Min(p * FILES_PER_PAGE, |sorted|)]
    ensures |PageOf(sorted, p)| <= FILES_PER_PAGE
  {
  }

  /** A page counted from 1 is non-empty exactly when it is one of the `TotalPages` pages. */
  lemma PageNonEmptyIff<T>(sorted: seq<T>, p: int)
    requires p >= 1
    ensures PageOf(sorted, p) != [] <==> p <= TotalPages(|sorted|)
  {
    PageContents(sorted, p);
    var pages := TotalPages(|sorted|);
    if p <= pages {
      assert (p - 1) * FILES_PER_PAGE <= (pages - 1) * FILES_PER_PAGE;
    } else {
      assert (p - 1) * FILES_PER_PAGE >= pages * FILES_PER_PAGE;
    }
  }

  /** Pages 1 to `k`, one after the other. */
  function PagesUpTo<T>(sorted: seq<T>, k: nat): seq<T> {
    if k == 0 then [] else PagesUpTo(sorted, k - 1) + PageOf(sorted, k)
  }

  /** The first `k` pages are the first `k * 250` entries (or all of them). */
  lemma {:induction false} PagesUpToPrefix<T>(sorted: seq<T>, k: nat)
    ensures PagesUpTo(sorted, k) == sorted[..Min(k * FILES_PER_PAGE, |sorted|)]
  {
    if k > 0 {
      PagesUpToPrefix(sorted, k - 1);
      PageContents(sorted, k);
      var a := Min((k - 1) * FILES_PER_PAGE, |sorted|);
      var b := Min(k * FILES_PER_PAGE, |sorted|);
      assert sorted[..a] + sorted[a..b] == sorted[..b];
    }
  }

  /** Reading pages 1 to `TotalPages` in turn shows every entry of the listing once, in order. */
  lemma AllPagesRebuildListing<T>(sorted: seq<T>)
    ensures PagesUpTo(sorted, TotalPages(|sorted|)) == sorted
  {
    PagesUpToPrefix(sorted, TotalPages(|sorted|));
  }

  /** The controls are shown only when the filtered listing needs more than one page of 250. */
  predicate ShowPagination(filteredCount: nat)
    ensures ShowPagination(filteredCount) <==> TotalPages(filteredCount) >= 2
  {
    filteredCount > FILES_PER_PAGE
  }

  /** What `PaginationControls` shows: "Page p of n" and which buttons are disabled. */
  datatype Controls = Controls(currentPage: int, totalPages: nat, previousDisabled: bool, nextDisabled: bool)

  function PaginationControls(currentPage: int, totalPages: nat): (c: Controls)
    ensures c.currentPage == currentPage && c.totalPages == totalPages
    ensures c.previousDisabled <==> currentPage == 1
    ensures c.nextDisabled <==> currentPage == totalPages
  {
    Controls(currentPage, totalPages, currentPage == 1, currentPage == totalPages)
  }

  /** The page after a click on Previous; a disabled button does nothing. */
  function AfterPrevious(c: Controls): (page: int)
    ensures page == c.currentPage <==> c.previousDisabled
    ensures page == c.currentPage || page == c.currentPage - 1
  {
    if c.previousDisabled then c.currentPage else c.currentPage - 1
  }

  /** The page after a click on Next; a disabled button does nothing. */
  function AfterNext(c: Controls): (page: int)
    ensures page == c.currentPage <==> c.nextDisabled
    ensures page == c.currentPage || page == c.currentPage + 1
  {
    if c.nextDisabled then c.currentPage else c.currentPage + 1
  }

  /** Starting on a page between 1 and the page count, both buttons keep the page in that range. */
  lemma NavigationStaysInRange(p: int, total: nat)
    requires 1 <= p <= total
    ensures 1 <= AfterPrevious(PaginationControls(p, total)) <= total
    ensures 1 <= AfterNext(PaginationControls(p, total)) <= total
    ensures AfterPrevious(PaginationControls(p, total)) == p <==> p == 1
    ensures AfterNext(PaginationControls(p, total)) == p <==> p == total
  {
  }

  /** Previous never leads below page 1 from a page counted from 1. */
  lemma PreviousNeverBelowOne(p: int, total: nat)
    requires p >= 1
    ensures AfterPrevious(PaginationControls(p, total)) >= 1
  {
  }

  /**
   * Next is disabled only on the exact last page: from a page beyond the count
   * (the listing shrank under a new search), Next stays enabled and leads further out.
   */
  lemma NextBeyondLastPage(p: int, total: nat)
    requires p > total
    ensures !PaginationControls(p, total).nextDisabled
    ensures AfterNext(PaginationControls(p, total)) > total
  {
  }

}
