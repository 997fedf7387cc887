/**
 * The standing selection intent: "starting at page `startPage`, select the first
 * `count` rows of the global ordering".  Declared in src/routes/index.tsx and shared
 * by the controller and the table.
 */
module Selection {
  /** Page numbers and counts are JavaScript numbers; only integral values arise. */
  datatype SelectionRequest = SelectionRequest(startPage: int, count: int)

  /** JavaScript truthiness of an integral number: everything but zero. */
  predicate Truthy(n: int) {
    n != 0
  }
}
