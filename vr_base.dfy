/**
 * Complexes/VR/Base.py: the state a Vietoris-Rips builder keeps. The point
 * cloud enters only through the metric, so points are their indices
 * 0 .. n - 1 and `metric(i, j)` stands for `_metric(_points[i], _points[j])`.
 * The incremental strategy's private `__new_complex` is kept here as well.
 */
module VRBase {
  import opened FilteredComplexes

  /**
   * Why an expansion stops: `_complex` is still `None` (the attribute
   * lookup fails), the brute-force expansion's `ReferenceError` when no
   * skeleton was built, or an error raised by the complex itself.
   */
  datatype VRError = NoComplex | SkeletonMissing | ComplexFailure(error: ComplexError)

  class VRBuilder {
    /** `len(_points)`. */
    const n: nat
    /** `_metric` applied to the points with these indices. */
    const metric: (nat, nat) -> real
    /** `_epsilon`. */
    const epsilon: real
    /** `_complex`, `None` until a skeleton is computed. */
    var complex: FilteredComplex?
    /** `_is_skeleton_constructed`. */
    var skeletonBuilt: bool
    /** `__new_complex` of the incremental expansion. */
    var newComplex: FilteredComplex

    /** Every complex the builder creates is unchecked and well formed. */
    ghost predicate Valid()
      reads this, complex, newComplex
    {
      (complex != null ==> complex.Valid() && !complex.checkValid) &&
      newComplex.Valid() && !newComplex.checkValid
    }

    constructor (n: nat, metric: (nat, nat) -> real, epsilon: real)
      ensures Valid() && this.n == n && this.metric == metric && this.epsilon == epsilon
      ensures complex == null && !skeletonBuilt
      ensures fresh(newComplex) && newComplex.weights == map[]
    {
      this.n := n;
      this.metric := metric;
      this.epsilon := epsilon;
      complex := null;
      skeletonBuilt := false;
      newComplex := new FilteredComplex(false);
    }
  }
}
