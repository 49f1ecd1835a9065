/** What the modules share. */
module Wrappers {
  datatype Option<+T> = None | Some(value: T)

  /** Always true: `forall n: nat | Folded(n) :: P` is P, kept folded away from a loop until `Folded(0)` is asserted. */
  ghost predicate Folded(n: nat) {
    true
  }
}
