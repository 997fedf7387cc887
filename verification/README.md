# Cross-page selection in a server-paginated table

This project models the selection logic of a small React application. The application
pages through a large collection fetched one page at a time. The user asks to "select
N rows starting from this page". Only one page of rows is ever in memory, so the
application keeps just the standing request `{startPage, count}`. Every time the page
or the request changes, the table re-derives which rows of the visible page are checked.

Modules:

- `Wrappers` (`wrappers.dfy`): `Option`, which stands for a TypeScript `X | null`.
- `Selection` (`selection.dfy`): the `SelectionRequest` record. It also holds
  JavaScript's truthiness of a number (`Truthy`: non-zero).
- `Table` (`table.dfy`): the table component's logic.
  - `Reconcile` is the selection effect. Nothing is checked without a request, with a
    falsy start page, or before the start page. Otherwise the first
    `count - (page - startPage) * limit` rows are checked, when that number is positive.
  - `Build` is the submit handler.
  - `FirstRow` and `PageOfEvent` are the paginator's page arithmetic.
  - The lemmas cover each branch of the effect, the bound by `count`, exhaustion that
    never re-arms going forward, and what a freshly built request selects.
- `Run` (`run.dfy`): an independent reference meaning for a request. It is the
  contiguous run of global row positions `[FirstRow(startPage), FirstRow(startPage) + count)`.
  - `ReconcileRealisesRun` proves that the per-page effect checks a row exactly when
    that row's global position lies in the run.
  - `RunChecksCount` proves that browsing the run's full pages checks `count` rows in all.
- `Routes` (`app.dfy`): the route component.
  - `Gate` is the render gate: spinner, failure notice, or table.
  - `App` is the controller. It owns `page` (initially 1) and `request` (initially
    absent), together with the table's checked rows and the overlay flag.
  - Every method that writes `page`, `request` or `view` re-derives the checked rows
    from `Reconcile`. The invariant `Valid()` states that they always equal the derived value.

Numbers are JavaScript numbers. Only integral values arise here, so they are modelled
as `int`. "Falsy" means zero. The record type is not part of this model, so rows are
values of an arbitrary type `T`. The page size `limit` is a constant of the controller.

Some of the code's behaviour is easy to miss:

- The submit handler rejects only an absent or zero input. A negative input builds a
  request, which then checks nothing on any page (`BuiltSelectsFromCurrentPage`). Only
  the number widget's `min={0}` keeps negative values out.
- The effect's guard tests the start page for truthiness (`!selectionRequest?.startPage`)
  as well as for absence. A request with start page 0 checks nothing.
- The rows are not always reconciled against the page they belong to. A click on the
  paginator changes the page while the table is still mounted over the rows it holds.
  The effect then runs once with the new page number and the old rows, before the fetch
  hook reports loading. `App.Navigate` models that step as written.
- The Close button of the overlay sits inside the form and declares no button type, so
  it is a submit button. A click hides the overlay and then submits the field's value
  like the Submit button (`App.ClosePanel`; see "Findings").
- The request is never cleared. An exhausted run stays installed until the next
  submission replaces it, and `Navigate` and `Observe` leave `request` unchanged.

## Model

| member | source | states |
|---|---|---|
| `Table.Reconcile` | src/components/Table.tsx:40-53 | The checked rows are a prefix of the page's rows. They are non-empty only when a request exists, its start page is set, it is not after the page in view, and then there are at most `count - (page - startPage) * limit` of them. |
| `Table.SliceTo` | src/components/Table.tsx:51 | `slice(0, end)` yields a prefix of the rows. For a non-negative `end` its length is `end` capped at the number of rows. |
| `Table.IdleSelectsNothing` | src/components/Table.tsx:41-43 | With no request, or a falsy start page, nothing is checked on any page for any rows. |
| `Table.BeforeStartSelectsNothing` | src/components/Table.tsx:41-43 | If the start page is after the page in view, nothing is checked, whatever the count, page size or rows. |
| `Table.StartedSelectsPrefix` | src/components/Table.tsx:46-52 | Once the run has begun, the checked rows are exactly the first `clamp(count - (page - startPage) * limit, 0, |rows|)` rows, in order. This is empty when that number is not positive. |
| `Table.SelectionWithinCount` | src/components/Table.tsx:48-51 | With a non-negative page size, a page never checks more rows than the request's count. A non-positive count checks none. |
| `Table.RemainingNonIncreasing` | src/components/Table.tsx:48 | The number of rows still due never grows as the page number grows, for a non-negative page size. |
| `Table.ExhaustedStaysEmpty` | src/components/Table.tsx:48-52 | Once no rows are due at some page, every later page checks nothing, whatever rows it holds. |
| `Table.Build` | src/components/Table.tsx:55-63 | An absent or zero input builds no request. Any other input builds a request whose start page is the page in view and whose count is the input. |
| `Table.BuiltSelectsFromCurrentPage` | src/components/Table.tsx:40-66 | A request built from input `n` at page `p` checks exactly the first `min(n, |rows|)` rows of page `p` when `n > 0`, and nothing when `n < 0`. No earlier request plays a part. |
| `Table.FirstRow` | src/components/Table.tsx:142 | The paginator's first row index `(page - 1) * limit` is non-negative for real pages. For a positive page size it is 0 exactly on page 1. |
| `Table.PageOfEvent` | src/components/Table.tsx:145 | A non-negative 0-based paginator page maps to a page number of at least 1. |
| `Table.PaginatorRoundTrip` | src/components/Table.tsx:141-145 | For a positive page size, the widget page derived from `first` maps back to the page in view. A widget page `k` that is clicked comes back as widget page `k`. |
| `Run.ReconcileRealisesRun` | src/components/Table.tsx:46-52 | Take a set start page, a positive page size and a page of at most `limit` rows. Row `i` is checked exactly when its global position `(page - 1) * limit + i` lies in `[(startPage - 1) * limit, (startPage - 1) * limit + count)`. |
| `Run.FullPagesCheckRemaining` | src/components/Table.tsx:46-52 | Browse full pages forward from a page where the run has begun. The total number of checked rows is the number still due there, capped by the rows those pages hold. |
| `Run.RunChecksCount` | src/components/Table.tsx:40-52 | Browse full pages from the start page on. They check `count` rows in all, or every row when they hold fewer. |
| `Routes.Gate` | src/routes/index.tsx:27-56 | The spinner shows exactly while loading. The table shows exactly when not loading, not failed and data is present, and then over that data. |
| `Routes.Visible` | src/routes/index.tsx:46-56 | While the table is on screen, the shown selection is a prefix of its rows. Otherwise nothing is checked and no reconciliation takes place. |
| `Routes.App.constructor` | src/routes/index.tsx:16-21 | The route starts on page 1 with no request. Nothing is checked, the overlay is hidden, and the first view is the failure notice, because the hook starts neither loading nor holding data. |
| `Routes.App.Navigate` | src/routes/index.tsx:23-25 | Navigation sets the page and leaves the request, view and overlay unchanged. The checked rows are re-derived. |
| `Routes.App.OnPageChange` | src/components/Table.tsx:141-151 | A paginator event for 0-based page `k` moves to page `k + 1`, keeping the request. The click lands outside the dismissable overlay, so the overlay is hidden afterwards. |
| `Routes.App.Observe` | src/routes/index.tsx:21-45 | New fetch-hook outputs set the view through the render gate. A table that leaves the screen closes the overlay. Page and request are unchanged, and the checked rows are re-derived. |
| `Routes.App.TogglePanel` | src/components/Table.tsx:88-91 | The header icon flips the overlay and changes nothing else. |
| `Routes.App.ClosePanel` | src/components/Table.tsx:152-174 | The Close button, as written, hides the overlay and also submits the form. An absent or zero field value leaves the request and selection unchanged. Any other value replaces the request with `{startPage: page, count: value}`, and a positive value checks the first `min(value, |rows|)` rows. |
| `Routes.CloseRequest` | src/components/Table.tsx:152-174 | The request after Close is the old request for an absent or zero field value, and otherwise `{startPage: page, count: value}`. |
| `Routes.CloseInstallsRequest` | src/components/Table.tsx:152-174 | With 5 in the field at page 3 and no request, Close installs `{startPage: 3, count: 5}`, so Close is not a no-op. |
| `Routes.App.DismissPanel` | src/components/Table.tsx:167-172 | The Close button as evidently intended hides the overlay and changes nothing else. |
| `Routes.App.Submit` | src/components/Table.tsx:55-66 | A falsy input changes nothing and leaves the overlay open. Any other input replaces the request with `{startPage: page, count: input}` and hides the overlay. For a positive input it checks the first `min(input, |rows|)` rows of the page in view. |

## Left out

- The fetch hook (`src/api/hooks/useData.ts`) is network I/O and is not part of this model. Its three outputs (loading flag, error, data) enter as the parameters of `App.Observe`.
- Rendering and the widget library are not modelled: the data table, columns, styles, links and the overlay's positioning. The overlay is a boolean only.
- `Table.IndexOfFirst`: the paginator widget's own page derivation (`first / rows`, floor division) is an assumption about the widget. It is used only to state the round trip.
- `src/routes/__root.tsx` is a layout shell and is not part of this model.
- Manual checkbox toggling (`onSelectionChange`, src/components/Table.tsx:76) is incidental. The next reconciliation overwrites it.
- Memoisation of the rows from mount (src/components/Table.tsx:34) is not modelled. Every fetch passes through the loading state, which unmounts the table, so the rows it holds are those of the current page.
- The form's own input cell (src/components/Table.tsx:38,157) is not modelled. Its value at submission is the parameter of `App.Submit` and `App.ClosePanel`.
- NaN and fractional numbers are not modelled, because integral values are the only ones the widgets produce.
- A page size that changes during a session is not modelled: `limit` is a constant.
- The total record count (src/components/Table.tsx:144) is not modelled, because it only sizes the paginator.
- `Routes.App.Navigate` requires a page of at least 1. Its only caller passes a non-negative widget page plus one, so the handler itself performs no check.
- Determinism of reconciliation is not stated as a lemma. Every Dafny function is deterministic by construction.

## Findings

| source | as written | input that shows it | evidently intended | confidence | as-written member | corrected member |
|---|---|---|---|---|---|---|
| src/components/Table.tsx:167-172 | The Close `<Button>` is inside the `<form>` (152-174) and has no `type`, so it defaults to a submit button. Its click hides the overlay and then runs `handleSubmit` (55-66). | Field holds 5 on page 3 with no request; click Close. The request becomes `{startPage: 3, count: 5}` and 5 rows are checked. | Close only hides the overlay (`type="button"`), leaving request and selection unchanged. | medium, not executed: follows from the HTML default button type | `Routes.App.ClosePanel`, `Routes.CloseInstallsRequest` | `Routes.App.DismissPanel` |
