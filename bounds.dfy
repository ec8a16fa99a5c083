/** Objective bounds of the search. A node's upper bound starts at +infinity
    (the root's `float('inf')`) and is lowered to finite relaxation values;
    lower bounds are always finite. */
module Bounds {

  datatype Bound = Finite(value: real) | Infinity {

    /** `this <= x`, evaluated as the float comparison with +inf is. */
    predicate AtMost(x: real) {
      Finite? && value <= x
    }

    /** `this >= x`. */
    predicate AtLeast(x: real) {
      Infinity? || x <= value
    }
  }
}
