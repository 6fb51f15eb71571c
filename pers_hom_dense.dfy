/**
 * PersistentHomology/PersHom1.py: the column reduction over Z/2 on a dense
 * 0/1 boundary matrix. `compute` reduces a copy of the boundary in place and
 * emits one persistence point per pairing of a last row with a column.
 */
module DensePersistence {
  import opened Wrappers
  import opened Simplices
  import opened Sorting
  import FilteredComplexes
  import opened Boundaries
  import opened ColumnReduction
  import opened DenseReduction
  import opened PersDiagrams

  class PersHom1 {
    /** `__simplex_ordering`: the simplices by ascending weight. */
    const ordering: seq<Simplex>
    /** `__weights`: the weights, position by position. */
    const weights: seq<real>
    /** `__simplex_count`. */
    const count: nat
    /** `__boundary_matrix`: an n-by-n 0/1 matrix. */
    const boundary: array2<bool>
    /** The columns of the boundary, as sets of rows. */
    ghost const columns: seq<set<nat>>
    /** `__working_matrix`: null until `compute`. */
    var working: array2?<bool>
    /** `_pers_diag`: null until `compute`. */
    var diag: PersDiag?

    ghost predicate Valid()
      reads this, boundary
    {
      count == |ordering| == |weights| == |columns| &&
      boundary.Length0 == count && Mirrors(boundary, columns) && RowsBelow(columns, count)
    }

    constructor (ordering: seq<Simplex>, weights: seq<real>, boundary: array2<bool>, ghost columns: seq<set<nat>>)
      requires |weights| == |ordering| == |columns| && boundary.Length0 == |ordering|
      requires Mirrors(boundary, columns) && RowsBelow(columns, |ordering|)
      ensures Valid() && diag == null && working == null
      ensures this.ordering == ordering && this.weights == weights && this.boundary == boundary && this.columns == columns
    {
      this.ordering := ordering;
      this.weights := weights;
      this.count := |ordering|;
      this.boundary := boundary;
      this.columns := columns;
      working := null;
      diag := null;
    }

    /**
     * `compute`: the working matrix, a fresh copy of the boundary, is reduced
     * in place; the boundary itself stays as it was, and the diagram holds one
     * point per pairing of a last row with a column.
     */
    method Compute()
      requires Valid()
      modifies this
      ensures Valid()
      ensures working != null && fresh(working) && Mirrors(working, Reduce(columns, count).cols)
      ensures Fits(Reduce(columns, count).low, ordering, weights)
      ensures diag != null && fresh(diag) && diag.Valid()
      ensures diag.points == Grouped(PairPoints(Reduce(columns, count).low, Reduce(columns, count).low.Keys, ordering, weights))
      ensures diag.pointCount == |Reduce(columns, count).low.Keys|
      ensures Triangular(columns) && Ascending(weights) ==> PointsOrdered(diag.points)
    {
      var w := CopyMatrix(boundary, columns);
      working := w;
      var low := ReduceDense(w, columns);
      ReducedFits(columns, ordering, weights);
      diag := EmitPairs(low, ordering, weights);
      if Triangular(columns) && Ascending(weights) {
        ReducedOrdered(columns, ordering, weights);
      }
    }
  }

  /** The boundary columns of `ord`, one set of facet positions per simplex. */
  ghost function FacetColumns(ord: seq<Simplex>): (cols: seq<set<nat>>)
    ensures |cols| == |ord| && forall i :: 0 <= i < |ord| ==> cols[i] == FacetPositions(ord, i)
  {
    seq(|ord|, i requires 0 <= i < |ord| => FacetPositions(ord, i))
  }

  /**
   * `PersHom1(filtered_complex)`: the ordering, the weights and the dense
   * boundary of a filtered complex; it raises exactly when some stored
   * simplex has a facet, other than the empty simplex, that is not stored.
   */
  method NewPersHom1(fc: FilteredComplexes.FilteredComplex) returns (r: Result<PersHom1, BoundaryError>)
    requires fc.Valid()
    ensures r.Success? <==> FacetClosed(fc.weights.Keys)
    ensures r.Success? ==> fresh(r.value) && fresh(r.value.boundary) && r.value.Valid() && r.value.diag == null
    ensures r.Success? ==> Enumerates(r.value.ordering, fc.weights.Keys)
    ensures r.Success? ==> forall i :: 0 <= i < r.value.count ==>
              r.value.weights[i] == fc.weights[r.value.ordering[i]] && r.value.columns[i] == FacetPositions(r.value.ordering, i)
    ensures r.Success? ==> Ascending(r.value.weights)
    ensures r.Success? ==> (FacetsFirst(r.value.ordering) <==> Triangular(r.value.columns))
  {
    var ord, ws := ReadFiltration(fc);
    ListedIffClosed(ord, fc.weights.Keys);
    var b := DenseBoundary(ord);
    if b.Failure? {
      return Failure(b.error);
    }
    ghost var cols := FacetColumns(ord);
    forall c | 0 <= c < |ord| ensures Column(b.value, c) == cols[c] && forall j :: j in cols[c] ==> j < |ord| {
      assert forall j :: j in Column(b.value, c) <==> j in FacetPositions(ord, c);
      PositionsInRange(ord, c);
    }
    FacetsFirstIffTriangular(ord, cols);
    var ph := new PersHom1(ord, ws, b.value, cols);
    return Success(ph);
  }
}
