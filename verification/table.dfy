/**
 * The table component: the effect that derives the checked rows of the visible
 * page from the standing selection request, the submit handler that builds a new
 * request, and the paginator's page arithmetic.
 */
module Table {
  import opened Wrappers
  import opened Selection

  /** `x` limited to the closed interval [lo, hi]. */
  function Clamp(x: int, lo: int, hi: int): (r: int)
    requires lo <= hi
    ensures lo <= r <= hi
    ensures lo <= x <= hi ==> r == x
  {
    if x < lo then lo else if x > hi then hi else x
  }

  /**
   * JavaScript's `rows.slice(0, end)`: a negative `end` counts from the back,
   * an `end` past the length stops at the length.
   */
  function SliceTo<T>(rows: seq<T>, end: int): (r: seq<T>)
    ensures |r| <= |rows| && r == rows[..|r|]
    ensures 0 <= end ==> |r| == Clamp(end, 0, |rows|)
  {
    var stop := if end < 0 then Clamp(|rows| + end, 0, |rows|) else Clamp(end, 0, |rows|);
    rows[..stop]
  }

  /**
   * The rows of the run still due on or after `page`: the request's count less the
   * rows of the run held by the pages strictly between `startPage` and `page`.
   */
  function Remaining(request: SelectionRequest, page: int, limit: int): int {
    request.count - (page - request.startPage) * limit
  }

  /** The run has begun by `page`: the request's start page is set and not beyond it. */
  predicate Started(request: SelectionRequest, page: int) {
    Truthy(request.startPage) && request.startPage <= page
  }

  /**
   * The selection effect: the checked rows of the page in view.  Nothing is checked
   * without a request, or before its start page; otherwise the first `Remaining`
   * rows are, when that number is positive.
   */
  function Reconcile<T>(request: Option<SelectionRequest>, page: int, limit: int, rows: seq<T>): (selected: seq<T>)
    ensures |selected| <= |rows| && selected == rows[..|selected|]
    ensures |selected| > 0 ==> request.Some? && Started(request.value, page)
    ensures |selected| > 0 ==> |selected| <= Remaining(request.value, page, limit)
  {
    if request.None? || !Truthy(request.value.startPage) || request.value.startPage > page then
      []
    else
      var remaining := Remaining(request.value, page, limit);
      if remaining > 0 then SliceTo(rows, remaining) else []
  }

  /** No request, or a request whose start page is falsy, checks nothing on any page. */
  lemma IdleSelectsNothing<T>(request: Option<SelectionRequest>, page: int, limit: int, rows: seq<T>)
    requires request.None? || !Truthy(request.value.startPage)
    ensures Reconcile(request, page, limit, rows) == []
  {
  }

  /** A run that starts after the page in view checks nothing there, whatever its count, the page size or the rows. */
  lemma BeforeStartSelectsNothing<T>(request: SelectionRequest, page: int, limit: int, rows: seq<T>)
    requires request.startPage > page
    ensures Reconcile(Some(request), page, limit, rows) == []
  {
  }

  /**
   * Once the run has begun, exactly the first `Remaining` rows are checked, in their
   * order, limited to the rows the page has; none when `Remaining` is not positive.
   */
  lemma StartedSelectsPrefix<T>(request: SelectionRequest, page: int, limit: int, rows: seq<T>)
    requires Started(request, page)
    ensures var n := Clamp(Remaining(request, page, limit), 0, |rows|);
      Reconcile(Some(request), page, limit, rows) == rows[..n]
  {
  }

  /** With a non-negative page size a page never checks more rows than the request's count. */
  lemma SelectionWithinCount<T>(request: SelectionRequest, page: int, limit: int, rows: seq<T>)
    requires limit >= 0
    ensures |Reconcile(Some(request), page, limit, rows)| <= if request.count < 0 then 0 else request.count
  {
  }

  lemma MulNonNegative(a: int, b: int)
    requires a >= 0 && b >= 0
    ensures a * b >= 0
  {
  }

  /** The rows still due never grow as the page number grows, for a non-negative page size. */
  lemma RemainingNonIncreasing(request: SelectionRequest, page: int, later: int, limit: int)
    requires page <= later && limit >= 0
    ensures Remaining(request, later, limit) <= Remaining(request, page, limit)
  {
  }

  /**
   * Exhaustion: once no rows are due at a page, no later page checks anything,
   * whatever rows it holds.  A consumed run never re-arms going forward.
   */
  lemma ExhaustedStaysEmpty<T>(request: SelectionRequest, page: int, later: int, limit: int, rows: seq<T>)
    requires page <= later && limit >= 0
    requires Remaining(request, page, limit) <= 0
    ensures Reconcile(Some(request), later, limit, rows) == []
  {
    RemainingNonIncreasing(request, page, later, limit);
  }

  /**
   * The submit handler: a falsy input (absent or zero) is rejected and builds
   * nothing; any other input becomes a whole new request starting at the page in view.
   */
  function Build(input: Option<int>, page: int): (request: Option<SelectionRequest>)
    ensures request.None? <==> input.None? || !Truthy(input.value)
    ensures request.Some? ==> request.value.startPage == page && request.value.count == input.value
  {
    if input.None? || !Truthy(input.value) then None
    else Some(SelectionRequest(page, input.value))
  }

  /**
   * A request just built at the page in view checks, on that page, exactly its
   * first `min(input, |rows|)` rows for a positive input, and nothing for a
   * negative one; what was requested before plays no part.
   */
  lemma BuiltSelectsFromCurrentPage<T>(input: int, page: int, limit: int, rows: seq<T>)
    requires Truthy(input) && Truthy(page)
    ensures input > 0 ==> Reconcile(Build(Some(input), page), page, limit, rows) == rows[..Clamp(input, 0, |rows|)]
    ensures input < 0 ==> Reconcile(Build(Some(input), page), page, limit, rows) == []
  {
  }

  /** The paginator's `first`: the 0-based global index of the first row of a 1-based page. */
  function FirstRow(page: int, limit: int): (first: int)
    ensures page >= 1 && limit >= 0 ==> first >= 0
    ensures limit > 0 ==> (first == 0 <==> page == 1)
  {
    (page - 1) * limit
  }

  /** The page the table navigates to when the paginator reports its 0-based page. */
  function PageOfEvent(index: int): (page: int)
    ensures index >= 0 ==> page >= 1
  {
    index + 1
  }

  /**
   * The paginator widget's own 0-based page for a given `first` and page size
   * (floor division; the widget is not part of this model).
   */
  function IndexOfFirst(first: int, rows: int): int
    requires rows > 0
  {
    first / rows
  }

  lemma MulDivCancel(a: int, b: int)
    requires b > 0
    ensures (a * b) / b == a
  {
    var q, r := (a * b) / b, (a * b) % b;
    var d := a - q;
    assert d * b == r by {
      assert a * b == q * b + r;
      assert d * b == a * b - q * b;
    }
    if d >= 1 {
      MulNonNegative(d - 1, b);
      assert false;
    } else if d <= -1 {
      MulNonNegative(-d - 1, b);
      assert false;
    }
  }

  /**
   * The paginator round trip: the page the table shows is the page the widget
   * highlights, and clicking widget page `k` comes back as widget page `k`.
   */
  lemma PaginatorRoundTrip(page: int, index: int, limit: int)
    requires limit > 0
    ensures PageOfEvent(IndexOfFirst(FirstRow(page, limit), limit)) == page
    ensures IndexOfFirst(FirstRow(PageOfEvent(index), limit), limit) == index
  {
    MulDivCancel(page - 1, limit);
    MulDivCancel(index, limit);
  }
}
