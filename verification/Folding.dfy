/** Folded predicates. A predicate of the form

      forall t: Token {:trigger Unfold(t)} :: t == Scan && Unfold(t) ==> Definition

    means the same as its definition, but proofs see the definition only after `assert Unfold(Scan)`.
    There is a token for every predicate that is folded. */
module Folding {

  datatype Token = Child | Parts | Cover | Emits | Whole | Compiled | Root | Way | Output | Alike | Scan | Occupied | Shifted | Written | Halfway

  predicate Unfold(t: Token) {
    true
  }
}
