/** A definition of the form `forall b: bool :: Unseal(b) ==> P` means P, but the solver unfolds P
    only where `Unseal` is mentioned.  Large predicates that are mostly passed along are sealed so. */
module Seals {
  predicate Unseal(b: bool) {
    true
  }
}
