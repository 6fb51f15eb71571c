/**
 * PersistentHomology/PersHom2.py: the column reduction over Z/2 on a sparse
 * boundary matrix, a list of sets of row positions. `compute` reduces a copy
 * of the boundary column by column, adding columns in place, and emits one
 * persistence point per pairing of a last row with a column.
 */
module SparsePersistence {
  import opened Wrappers
  import opened Simplices
  import opened Sorting
  import FilteredComplexes
  import opened Boundaries
  import opened ColumnReduction
  import opened PersDiagrams
  import Extrema
  import DensePersistence

  class PersHom2 {
    /** `__simplex_ordering`: the simplices by ascending weight. */
    const ordering: seq<Simplex>
    /** `__weights`: the weights, position by position. */
    const weights: seq<real>
    /** `__simplex_count`. */
    const count: nat
    /** `__boundary_matrix`: the facet positions of each simplex. */
    const boundary: seq<set<nat>>
    /** `__working_matrix`: the columns being reduced (empty until `compute`). */
    var working: seq<set<nat>>
    /** `_pers_diag`: null until `compute`. */
    var diag: PersDiag?

    ghost predicate Valid()
      reads this
    {
      count == |ordering| == |weights| == |boundary| && RowsBelow(boundary, count)
    }

    constructor (ordering: seq<Simplex>, weights: seq<real>, boundary: seq<set<nat>>)
      requires |weights| == |ordering| == |boundary| && RowsBelow(boundary, |ordering|)
      ensures Valid() && diag == null && working == []
      ensures this.ordering == ordering && this.weights == weights && this.boundary == boundary
    {
      this.ordering := ordering;
      this.weights := weights;
      this.count := |ordering|;
      this.boundary := boundary;
      working := [];
      diag := null;
    }

    /** `__get_last_in_col(i)`: the largest row of column `i`, or None for an empty column. */
    method GetLastInCol(i: nat) returns (r: Option<nat>)
      requires i < |working|
      ensures r == Low(working[i])
    {
      if working[i] == {} {
        return None;
      }
      var m := Extrema.Max(working[i]);
      return Some(m);
    }

    /** `__add_col(i, j)`: each row of column `j` is added to column `i` if absent and removed if present. */
    method AddCol(i: nat, j: nat)
      requires i < |working| && j < |working| && i != j
      modifies this
      ensures working == old(working)[i := SymDiff(old(working)[i], old(working)[j])]
      ensures diag == old(diag)
    {
      var other := working[j];
      var todo := other;
      ghost var done: set<nat> := {};
      while todo != {}
        invariant todo <= other && done == other - todo
        invariant |working| == |old(working)|
        invariant forall c :: 0 <= c < |working| && c != i ==> working[c] == old(working)[c]
        invariant forall x :: x in working[i] <==> (x in old(working)[i] <==> x !in done)
        invariant diag == old(diag)
        decreases |todo|
      {
        var k := Extrema.Choose(todo);
        if k !in working[i] {
          working := working[i := working[i] + {k}];
        } else {
          working := working[i := working[i] - {k}];
        }
        done := done + {k};
        todo := todo - {k};
      }
      assert done == other;
      assert working[i] == SymDiff(old(working)[i], other);
    }

    /**
     * One pass of the `for` loop of `compute` before the pairing is
     * recorded: while the last row of column `i` is paired, add the column
     * it is paired with. Column `i` ends settled against the earlier columns,
     * and no other column changes.
     */
    method SettleColumn(i: nat, low: map<nat, nat>) returns (last: Option<nat>)
      requires i < |working| && Paired(working, low)
      requires forall r :: r in low ==> low[r] < i
      modifies this
      ensures working == old(working)[i := Settle(old(working), low, old(working)[i])]
      ensures last == Low(working[i])
      ensures diag == old(diag)
    {
      ghost var R := working;
      last := GetLastInCol(i);
      while last.Some? && last.value in low
        invariant |working| == |R| && working == R[i := working[i]]
        invariant last == Low(working[i])
        invariant Settle(R, low, working[i]) == Settle(R, low, R[i])
        invariant diag == old(diag)
        decreases Height(working[i])
      {
        var competing := low[last.value];
        LowDrops(working[i], R[competing]);
        AddCol(i, competing);
        last := GetLastInCol(i);
      }
    }

    /**
     * `compute`: the working matrix becomes the reduced boundary, the
     * boundary itself stays as it was, and the diagram holds one point per
     * pairing of a last row with a column.
     */
    method Compute()
      requires Valid()
      modifies this
      ensures Valid()
      ensures working == Reduce(boundary, count).cols
      ensures Fits(Reduce(boundary, count).low, ordering, weights)
      ensures diag != null && fresh(diag) && diag.Valid()
      ensures diag.points == Grouped(PairPoints(Reduce(boundary, count).low, Reduce(boundary, count).low.Keys, ordering, weights))
      ensures diag.pointCount == |Reduce(boundary, count).low.Keys|
      ensures Triangular(boundary) && Ascending(weights) ==> PointsOrdered(diag.points)
    {
      var low := ReduceColumns();
      ReducedFits(boundary, ordering, weights);
      diag := EmitPairs(low, ordering, weights);
      if Triangular(boundary) && Ascending(weights) {
        ReducedOrdered(boundary, ordering, weights);
      }
    }

    /** One pass of that loop: column `i` is settled and its lowest row, if any, recorded as paired with `i`. */
    method ReduceColumn(i: nat, low: map<nat, nat>) returns (low': map<nat, nat>)
      requires Valid() && i < count && |working| == count && Reduce(boundary, i) == Reduced(working, low)
      modifies this
      ensures |working| == count && Reduce(boundary, i + 1) == Reduced(working, low')
      ensures diag == old(diag)
    {
      ghost var R := working;
      var last := SettleColumn(i, low);
      ReduceStep(boundary, i, R, low, working[i]);
      low' := low;
      if last.Some? {
        low' := low[last.value := i];
      }
    }

    /** The reduction loop of `compute`: settles the columns left to right, recording each new lowest row. */
    method ReduceColumns() returns (low: map<nat, nat>)
      requires Valid()
      modifies this
      ensures Valid() && diag == old(diag)
      ensures working == Reduce(boundary, count).cols && low == Reduce(boundary, count).low
    {
      low := map[];
      working := boundary;
      var i := 0;
      while i < count
        invariant 0 <= i <= count && |working| == count
        invariant Reduce(boundary, i) == Reduced(working, low)
        invariant diag == old(diag)
      {
        low := ReduceColumn(i, low);
        i := i + 1;
      }
    }
  }

  /**
   * `PersHom2(filtered_complex)`: the ordering, the weights and the sparse
   * boundary of a filtered complex; it raises exactly when some stored
   * simplex has a facet, other than the empty simplex, that is not stored.
   */
  method NewPersHom2(fc: FilteredComplexes.FilteredComplex) returns (r: Result<PersHom2, BoundaryError>)
    requires fc.Valid()
    ensures r.Success? <==> FacetClosed(fc.weights.Keys)
    ensures r.Success? ==> fresh(r.value) && r.value.Valid() && r.value.diag == null
    ensures r.Success? ==> Enumerates(r.value.ordering, fc.weights.Keys)
    ensures r.Success? ==> forall i :: 0 <= i < r.value.count ==>
              r.value.weights[i] == fc.weights[r.value.ordering[i]] && r.value.boundary[i] == FacetPositions(r.value.ordering, i)
    ensures r.Success? ==> Ascending(r.value.weights)
    ensures r.Success? ==> (FacetsFirst(r.value.ordering) <==> Triangular(r.value.boundary))
  {
    var ord, ws := ReadFiltration(fc);
    ListedIffClosed(ord, fc.weights.Keys);
    var b := SparseBoundary(ord);
    if b.Failure? {
      return Failure(b.error);
    }
    FacetsFirstIffTriangular(ord, b.value);
    var ph := new PersHom2(ord, ws, b.value);
    return Success(ph);
  }

  /**
   * PersHom1 and PersHom2 built on the same ordering with the same weights
   * reduce the same matrix: the dense boundary's columns are the sparse
   * boundary, so both `compute`s find the same pairing and the same diagram.
   */
  lemma DenseAndSparseAgree(dense: DensePersistence.PersHom1, sparse: PersHom2)
    requires dense.Valid() && sparse.Valid()
    requires dense.ordering == sparse.ordering && dense.weights == sparse.weights
    requires forall i :: 0 <= i < dense.count ==> dense.columns[i] == FacetPositions(dense.ordering, i)
    requires forall i :: 0 <= i < sparse.count ==> sparse.boundary[i] == FacetPositions(sparse.ordering, i)
    ensures dense.columns == sparse.boundary
    ensures Reduce(dense.columns, dense.count) == Reduce(sparse.boundary, sparse.count)
    ensures Fits(Reduce(sparse.boundary, sparse.count).low, sparse.ordering, sparse.weights)
    ensures Grouped(PairPoints(Reduce(dense.columns, dense.count).low, Reduce(dense.columns, dense.count).low.Keys, dense.ordering, dense.weights))
         == Grouped(PairPoints(Reduce(sparse.boundary, sparse.count).low, Reduce(sparse.boundary, sparse.count).low.Keys, sparse.ordering, sparse.weights))
  {
    assert dense.count == sparse.count;
    forall i | 0 <= i < dense.count ensures dense.columns[i] == sparse.boundary[i] {
    }
    ReducedFits(sparse.boundary, sparse.ordering, sparse.weights);
  }

  /**
   * A stored empty simplex heavier than a vertex sorts after it, yet it is
   * the vertex's facet: the vertex's column holds the later row, and the
   * reduction pairs row 1 with column 0, a point that dies before it is born.
   */
  lemma EmptySimplexPairsBackward()
    ensures var ord := [Simplex({0}), Simplex({})];
            FacetPositions(ord, 0) == {1} && FacetPositions(ord, 1) == {} &&
            !Triangular([{1}, {}]) && Reduce([{1}, {}], 2).low == map[1 := 0]
  {
    var ord := [Simplex({0}), Simplex({})];
    assert Simplex({}) in ord[0].Facets() by {
      assert ord[0].vertices - {0} == {};
    }
    var D: seq<set<nat>> := [{1}, {}];
    assert Low({1}) == Some(1);
    assert Reduce(D, 1).low == map[1 := 0];
  }
}

