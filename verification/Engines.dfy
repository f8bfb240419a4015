/** The SQL engine as a parameter: executing a statement gives a new database, or fails and changes
    nothing. */
module Engines {
  import opened Values

  type Exec<!D> = (D, string) -> Option<D>

  /** Two engines give related databases the same answer to a statement that is safe on both, and related
      databases again. They may differ in what a statement leaves open, such as the order in which a map
      is visited. */
  ghost predicate AgreeWhen<D(!new)>(mine: Exec<D>, yours: Exec<D>, eq: (D, D) -> bool, safe: (D, string) -> bool) {
    forall a, b, q :: eq(a, b) && safe(a, q) && safe(b, q) ==> SameOutcome(eq, mine(a, q), yours(b, q))
  }

  /** Both fail, or both succeed with related databases. */
  ghost predicate SameOutcome<D>(eq: (D, D) -> bool, x: Option<D>, y: Option<D>) {
    match (x, y)
    case (None, None) => true
    case (Some(a), Some(b)) => eq(a, b)
    case _ => false
  }
}
