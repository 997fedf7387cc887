/**
 * The application route: the controller that owns the page number and the
 * standing selection request, decides from the fetch hook's outputs whether the
 * table is on screen, and re-derives the checked rows after every change.
 */
module Routes {
  import opened Wrappers
  import opened Selection
  import opened Table

  /** What the route renders: the spinner, the failure notice, or the table over a page of rows. */
  datatype View<T> = Spinner | FailureNotice | Grid(rows: seq<T>)

  /**
   * Render gating: a fetch in flight shows the spinner, an error or missing data
   * the failure notice, and only settled data the table.
   */
  function Gate<T>(isLoading: bool, failed: bool, data: Option<seq<T>>): (view: View<T>)
    ensures view.Spinner? <==> isLoading
    ensures view.Grid? <==> !isLoading && !failed && data.Some?
    ensures view.Grid? ==> data == Some(view.rows)
  {
    if isLoading then Spinner
    else if failed || data.None? then FailureNotice
    else Grid(data.value)
  }

  /**
   * The rows shown checked: the reconciled prefix of the page while the table is
   * on screen; nothing otherwise, since no table is mounted to hold a selection.
   */
  function Visible<T>(request: Option<SelectionRequest>, page: int, limit: int, view: View<T>): (selected: seq<T>)
    ensures view.Grid? ==> |selected| <= |view.rows| && selected == view.rows[..|selected|]
    ensures !view.Grid? ==> selected == []
  {
    match view
    case Grid(rows) => Reconcile(request, page, limit, rows)
    case _ => []
  }

  /**
   * The request left by a click on the Close button as written: the form is
   * submitted along with the click, so a non-zero field value is built into a new
   * request exactly as by the submit handler; otherwise the request stays.
   */
  function CloseRequest(request: Option<SelectionRequest>, input: Option<int>, page: int): (after: Option<SelectionRequest>)
    ensures input.None? || !Truthy(input.value) ==> after == request
    ensures input.Some? && Truthy(input.value) ==> after == Some(SelectionRequest(page, input.value))
  {
    var built := Build(input, page);
    if built.Some? then built else request
  }

  /**
   * Closing the overlay is not a no-op: with 5 in the field at page 3 and no
   * request yet, Close installs the request {startPage: 3, count: 5}.
   */
  lemma CloseInstallsRequest()
    ensures CloseRequest(None, Some(5), 3) == Some(SelectionRequest(3, 5))
    ensures CloseRequest(None, Some(5), 3) != None
  {
  }

  class App<T> {
    /** The page size the server answers with; fixed for the whole session. */
    const limit: int
    /** The 1-based page in view. */
    var page: int
    /** The standing selection request, if one was ever submitted. */
    var request: Option<SelectionRequest>
    /** What is on screen, as decided from the fetch hook's outputs. */
    var view: View<T>
    /** The table's checked rows. */
    var selected: seq<T>
    /** Whether the overlay holding the count form is shown. */
    var panelOpen: bool

    /**
     * Pages are numbered from 1, the checked rows are always the ones re-derived
     * from the two owned cells, and the overlay lives inside the table.
     */
    ghost predicate Valid()
      reads this
    {
      page >= 1 &&
      selected == Visible(request, page, limit, view) &&
      (panelOpen ==> view.Grid?)
    }

    /**
     * The route as first rendered: page 1 and no request.  The fetch hook starts
     * neither loading nor holding data, so the first view is the failure notice.
     */
    constructor (limit: int)
      ensures Valid()
      ensures this.limit == limit && page == 1 && request == None
      ensures view == FailureNotice && selected == [] && !panelOpen
    {
      this.limit := limit;
      page := 1;
      request := None;
      view := Gate(false, false, None);
      selected := [];
      panelOpen := false;
    }

    /**
     * The page change handler: replaces the page and nothing else it owns; the
     * standing request survives navigation.  The table is still mounted over the
     * rows it holds until the hook reports the new fetch, and is reconciled at once.
     */
    method Navigate(p: int)
      requires Valid() && view.Grid? && p >= 1
      modifies this
      ensures Valid()
      ensures page == p && request == old(request)
      ensures view == old(view) && panelOpen == old(panelOpen)
    {
      page := p;
      selected := Reconcile(request, page, limit, view.rows);
    }

    /**
     * The paginator reports its 0-based page `index`, never negative; the route moves
     * to page `index + 1`.  The paginator lies outside the dismissable overlay, so the
     * click that reaches it also hides the overlay.
     */
    method OnPageChange(index: int)
      requires Valid() && view.Grid? && index >= 0
      modifies this
      ensures Valid()
      ensures page == index + 1 && request == old(request)
      ensures view == old(view) && !panelOpen
    {
      Navigate(PageOfEvent(index));
      panelOpen := false;
    }

    /**
     * The fetch hook reports new outputs.  The view follows the render gate; a table
     * that leaves the screen takes its overlay with it; the checked rows are
     * re-derived; the page and the request stay as they are.
     */
    method Observe(isLoading: bool, failed: bool, data: Option<seq<T>>)
      requires Valid()
      modifies this
      ensures Valid()
      ensures view == Gate(isLoading, failed, data)
      ensures page == old(page) && request == old(request)
      ensures panelOpen == (old(panelOpen) && view.Grid?)
    {
      view := Gate(isLoading, failed, data);
      panelOpen := panelOpen && view.Grid?;
      selected := Visible(request, page, limit, view);
    }

    /** The header icon toggles the overlay with the count form. */
    method TogglePanel()
      requires Valid() && view.Grid?
      modifies this
      ensures Valid()
      ensures panelOpen == !old(panelOpen)
      ensures page == old(page) && request == old(request) && view == old(view) && selected == old(selected)
    {
      panelOpen := !panelOpen;
    }

    /**
     * The overlay's Close button, as written.  It hides the overlay, but it sits inside
     * the form without a button type, so the click also submits the form with the
     * field's value `input`: a non-zero value replaces the request as Submit does.
     */
    method ClosePanel(input: Option<int>)
      requires Valid() && view.Grid?
      modifies this
      ensures Valid()
      ensures !panelOpen
      ensures request == CloseRequest(old(request), input, old(page))
      ensures Build(input, old(page)).None? ==> selected == old(selected)
      ensures view.Grid? && (input.Some? && input.value > 0 ==> selected == view.rows[..Clamp(input.value, 0, |view.rows|)])
      ensures page == old(page) && view == old(view)
    {
      panelOpen := false;
      var built := Build(input, page);
      if built.Some? {
        request := built;
        selected := Reconcile(request, page, limit, view.rows);
        BuiltSelectsFromCurrentPage(input.value, page, limit, view.rows);
      }
    }

    /**
     * The Close button as evidently intended (a plain button that does not submit):
     * it hides the overlay and changes nothing else.
     */
    method DismissPanel()
      requires Valid() && view.Grid?
      modifies this
      ensures Valid()
      ensures !panelOpen
      ensures page == old(page) && request == old(request) && view == old(view) && selected == old(selected)
    {
      panelOpen := false;
    }

    /**
     * The count form is submitted with `input`.  A falsy input changes nothing and
     * leaves the overlay open.  Any other input replaces the request wholesale with
     * one starting at the page in view, hides the overlay, and for a positive input
     * checks the first `input` rows of the page, or all of them when it has fewer.
     */
    method Submit(input: Option<int>) returns (accepted: bool)
      requires Valid() && panelOpen
      modifies this
      ensures Valid()
      ensures accepted <==> input.Some? && Truthy(input.value)
      ensures accepted ==> request == Some(SelectionRequest(old(page), input.value)) && !panelOpen
      ensures !accepted ==> request == old(request) && panelOpen && selected == old(selected)
      ensures view.Grid? && (accepted && input.value > 0 ==> selected == view.rows[..Clamp(input.value, 0, |view.rows|)])
      ensures page == old(page) && view == old(view)
    {
      var built := Build(input, page);
      if built.None? {
        return false;
      }
      request := built;
      panelOpen := false;
      selected := Reconcile(request, page, limit, view.rows);
      BuiltSelectsFromCurrentPage(input.value, page, limit, view.rows);
      accepted := true;
    }
  }
}
