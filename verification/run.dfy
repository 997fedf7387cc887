/**
 * What a selection request means over the whole collection: the contiguous run of
 * global row positions that begins at the first row of its start page and is
 * `count` rows long.  The theorems here show that the page-by-page effect of the
 * table realises exactly that run, without ever holding more than one page.
 */
module Run {
  import opened Wrappers
  import opened Selection
  import opened Table

  /** The 0-based global position of row `i` of `page`: the paginator's first row plus `i`. */
  function GlobalIndex(page: int, limit: int, i: int): int {
    FirstRow(page, limit) + i
  }

  /** Global position `g` lies in the run of `request`. */
  predicate InRun(request: SelectionRequest, limit: int, g: int) {
    var start := FirstRow(request.startPage, limit);
    start <= g < start + request.count
  }

  /** Distance from the run's first row to row `i` of `page`. */
  lemma OffsetFromRunStart(request: SelectionRequest, page: int, limit: int, i: int)
    ensures GlobalIndex(page, limit, i) - FirstRow(request.startPage, limit) == (page - request.startPage) * limit + i
  {
  }

  /**
   * The table checks row `i` of the page in view exactly when that row's global
   * position lies in the run, provided the request's start page is set, the page
   * size is positive and the page holds at most one page size of rows.
   */
  lemma ReconcileRealisesRun<T>(request: SelectionRequest, page: int, limit: int, rows: seq<T>, i: int)
    requires Truthy(request.startPage) && limit > 0 && |rows| <= limit && 0 <= i < |rows|
    ensures i < |Reconcile(Some(request), page, limit, rows)| <==> InRun(request, limit, GlobalIndex(page, limit, i))
  {
    OffsetFromRunStart(request, page, limit, i);
    if request.startPage <= page {
      StartedSelectsPrefix(request, page, limit, rows);
      MulNonNegative(page - request.startPage, limit);
    } else {
      BeforeStartSelectsNothing(request, page, limit, rows);
      MulNonNegative(request.startPage - page - 1, limit);
      assert (request.startPage - page) * limit == (request.startPage - page - 1) * limit + limit;
    }
  }

  /** The number of rows checked on consecutive pages `page, page + 1, …` holding `pages`. */
  function CheckedAcross<T>(request: SelectionRequest, limit: int, page: int, pages: seq<seq<T>>): nat
    decreases |pages|
  {
    if |pages| == 0 then 0
    else |Reconcile(Some(request), page, limit, pages[0])| + CheckedAcross(request, limit, page + 1, pages[1..])
  }

  /**
   * Browsing forward from a page where the run has begun, over full pages, checks
   * exactly the rows still due there, up to the rows those pages hold.
   */
  lemma {:induction false} FullPagesCheckRemaining<T>(request: SelectionRequest, limit: int, page: int, pages: seq<seq<T>>)
    requires Started(request, page) && limit > 0
    requires forall j :: 0 <= j < |pages| ==> |pages[j]| == limit
    ensures CheckedAcross(request, limit, page, pages) == Clamp(Remaining(request, page, limit), 0, |pages| * limit)
    decreases |pages|
  {
    if |pages| > 0 {
      var due := Remaining(request, page, limit);
      var restCap := (|pages| - 1) * limit;
      StartedSelectsPrefix(request, page, limit, pages[0]);
      RemainingNextPage(request, page, limit);
      FullPagesCheckRemaining(request, limit, page + 1, pages[1..]);
      assert |pages| * limit == restCap + limit;
      MulNonNegative(|pages| - 1, limit);
      ClampSplit(due, limit, restCap);
    }
  }

  lemma RemainingNextPage(request: SelectionRequest, page: int, limit: int)
    ensures Remaining(request, page + 1, limit) == Remaining(request, page, limit) - limit
  {
  }

  /** Rows due split between one full page and the pages after it. */
  lemma ClampSplit(due: int, limit: int, restCap: int)
    requires limit > 0 && restCap >= 0
    ensures Clamp(due, 0, limit) + Clamp(due - limit, 0, restCap) == Clamp(due, 0, restCap + limit)
  {
  }

  /**
   * The run's intent is met: browsing its pages from the start page on, as long as
   * they are full, checks `count` rows in all, or every row of those pages when
   * they hold fewer.
   */
  lemma RunChecksCount<T>(request: SelectionRequest, limit: int, pages: seq<seq<T>>)
    requires Truthy(request.startPage) && limit > 0
    requires forall j :: 0 <= j < |pages| ==> |pages[j]| == limit
    ensures CheckedAcross(request, limit, request.startPage, pages) == Clamp(request.count, 0, |pages| * limit)
  {
    FullPagesCheckRemaining(request, limit, request.startPage, pages);
    assert Remaining(request, request.startPage, limit) == request.count;
  }
}
