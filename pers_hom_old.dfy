/**
 * PersistentHomology/PersHomZ2Old.py: the earlier reducer. Its boundary only
 * looks at simplices earlier in the filtration, `compute` runs in three
 * stages (reduce a copy of the boundary, list the index pairs by dimension,
 * turn them into weight pairs), and the diagrams are per-dimension lists that
 * keep duplicates and insertion order.
 */
module OldPersistence {
  import opened Wrappers
  import opened Simplices
  import FilteredComplexes
  import opened Sorting
  import opened Boundaries
  import opened ColumnReduction
  import opened DenseReduction
  import Extrema

  /** `IPersPoint`: a pair of positions in the filtration. */
  datatype IPersPoint = IPersPoint(born: int, die: int)

  /** `PersPoint`: a pair of weights. */
  datatype PersPoint = PersPoint(born: real, die: real)

  /** Each point of `list`, in order, paired with `d`. */
  function Tagged<P(!new)>(list: seq<P>, d: int): (r: seq<(P, int)>)
    ensures |r| == |list|
    ensures forall p, e :: (p, e) in r <==> e == d && p in list
  {
    if list == [] then [] else [(list[0], d)] + Tagged(list[1..], d)
  }

  /** The `(point, dim)` pairs of the lists of the dimensions `ds`, dimension by dimension. */
  function Flatten<P(!new)>(ds: seq<int>, data: map<int, seq<P>>): (r: seq<(P, int)>)
    requires forall k :: 0 <= k < |ds| ==> ds[k] in data
    ensures forall p, d :: (p, d) in r <==> d in ds && p in data[d]
  {
    if ds == [] then []
    else
      Tagged(data[ds[0]], ds[0]) + Flatten(ds[1..], data)
  }

  /** The list stored under `d`, empty when there is none. */
  function Lookup<P>(data: map<int, seq<P>>, d: int): seq<P> {
    if d in data then data[d] else []
  }

  /**
   * `PersDiagsBase` with `IPersDiags` and `PersDiags`: a list of points per
   * dimension, kept in insertion order, the dimensions themselves in the
   * order they first appeared.
   */
  class Diags<P(!new)> {
    /** `_data`: dimension -> list of points. */
    var data: map<int, seq<P>>
    /** The keys of `_data` in insertion order, the order a dict iterates them. */
    var dims: seq<int>

    /** Each key is listed once, and a list exists only once a point was added to it. */
    ghost predicate Valid()
      reads this
    {
      Distinct(dims) && (forall d :: d in data <==> d in dims) &&
      (forall k :: 0 <= k < |dims| ==> dims[k] in data) && forall d :: d in data ==> data[d] != []
    }

    constructor ()
      ensures Valid() && data == map[] && dims == []
    {
      data := map[];
      dims := [];
    }

    /** `diag(dim)`: the list of dimension `dim`, empty for a dimension never seen. */
    function Diag(dim: int): (r: seq<P>)
      reads this
      ensures dim in data ==> r == data[dim]
      ensures Valid() ==> (r == [] <==> dim !in data)
    {
      Lookup(data, dim)
    }

    /** `add_point(point, dim)`: `point` is appended to the list of `dim`, duplicates kept; the other lists are unchanged. */
    method AddPoint(point: P, dim: int)
      requires Valid()
      modifies this
      ensures Valid()
      ensures data == old(data)[dim := old(Diag(dim)) + [point]]
      ensures Diag(dim) == old(Diag(dim)) + [point]
      ensures forall d :: d != dim ==> Diag(d) == old(Diag(d))
      ensures data.Keys == old(data.Keys) + {dim}
      ensures dims == if dim in old(data) then old(dims) else old(dims) + [dim]
    {
      if dim !in data {
        data := data[dim := []];
        dims := dims + [dim];
      }
      data := data[dim := data[dim] + [point]];
    }

    /** `points`: every stored point with its dimension, dimension by dimension in insertion order. */
    function Points(): (r: seq<(P, int)>)
      reads this
      requires Valid()
      ensures forall p, d :: (p, d) in r <==> d in data && p in data[d]
    {
      Flatten(dims, data)
    }
  }

  /** Why a stage of PersHomZ2Old fails its assertion: the stage it needs has not run. */
  datatype StageError = BoundaryNotReduced | IndexDiagramMissing | DiagramMissing

  /** The positions of the facets of the simplex at `i` that come before it. */
  ghost function EarlierFacets(ord: seq<Simplex>, i: nat): set<nat>
    requires i < |ord|
  {
    set j: nat | j < i && ord[j] in ord[i].Facets()
  }

  /** The index pairs of the rows `rows` of `low`, filed under dimension `d` when the column's simplex has dimension `d`. */
  ghost function IPoints(low: map<nat, nat>, rows: set<nat>, ord: seq<Simplex>, d: int): set<IPersPoint>
    requires forall r :: r in rows ==> r in low && low[r] < |ord|
  {
    set r | r in rows && ord[low[r]].Dim() == d :: IPersPoint(r, low[r])
  }

  lemma IPointsStep(low: map<nat, nat>, rows: set<nat>, r: nat, ord: seq<Simplex>, d: int)
    requires forall x :: x in rows + {r} ==> x in low && low[x] < |ord|
    requires r !in rows
    ensures IPersPoint(r, low[r]) !in IPoints(low, rows, ord, d)
    ensures IPoints(low, rows + {r}, ord, d) ==
              IPoints(low, rows, ord, d) + (if ord[low[r]].Dim() == d then {IPersPoint(r, low[r])} else {})
  {
  }

  /** The weight pair of each index pair, in the same order. */
  function ToWeights(ps: seq<IPersPoint>, ws: seq<real>): (r: seq<PersPoint>)
    requires forall q :: q in ps ==> 0 <= q.born < |ws| && 0 <= q.die < |ws|
    ensures |r| == |ps|
    ensures forall k :: 0 <= k < |ps| ==> r[k].born == ws[ps[k].born] && r[k].die == ws[ps[k].die]
  {
    if ps == [] then [] else [PersPoint(ws[ps[0].born], ws[ps[0].die])] + ToWeights(ps[1..], ws)
  }

  /** The dimension of each simplex of `ord`, in filtration order. */
  ghost function Dims(ord: seq<Simplex>): seq<int> {
    seq(|ord|, i requires 0 <= i < |ord| => ord[i].Dim())
  }

  /** The boundary of earlier facets takes each simplex to rows one dimension below it. */
  lemma EarlierFacetsGraded(ord: seq<Simplex>, columns: seq<set<nat>>)
    requires |columns| == |ord| && forall i :: 0 <= i < |ord| ==> columns[i] == EarlierFacets(ord, i)
    ensures Graded(columns, Dims(ord))
  {
    forall c | 0 <= c < |columns| ensures ColumnGraded(columns, Dims(ord), c) {
      FacetCount(ord[c]);
    }
  }

  /**
   * Every pair of the reduction joins a simplex to one exactly a dimension
   * higher, so filing an index pair under the dimension of its column's
   * simplex, as `construct_ipers_diag` does, puts it one dimension above
   * where PersHom1 and PersHom2 file the same pair (under its row's simplex).
   */
  lemma PairDimensions(ord: seq<Simplex>, columns: seq<set<nat>>)
    requires |columns| == |ord| && forall i :: 0 <= i < |ord| ==> columns[i] == EarlierFacets(ord, i)
    ensures var low := Reduce(columns, |ord|).low;
            forall r :: r in low ==> r < |ord| && low[r] < |ord| && ord[low[r]].Dim() == ord[r].Dim() + 1
  {
    EarlierFacetsGraded(ord, columns);
    ReduceGraded(columns, |ord|, Dims(ord));
  }

  lemma ToWeightsAppend(ps: seq<IPersPoint>, q: IPersPoint, ws: seq<real>)
    requires forall x :: x in ps + [q] ==> 0 <= x.born < |ws| && 0 <= x.die < |ws|
    ensures ToWeights(ps + [q], ws) == ToWeights(ps, ws) + [PersPoint(ws[q.born], ws[q.die])]
  {
    var a := ToWeights(ps + [q], ws);
    var b := ToWeights(ps, ws) + [PersPoint(ws[q.born], ws[q.die])];
    assert |a| == |b|;
    forall k | 0 <= k < |a| ensures a[k] == b[k] {
      if k < |ps| {
        assert (ps + [q])[k] == ps[k];
      }
    }
  }

  /** Every index pair in `diag` names two positions below `n`. */
  ghost predicate IndicesBelow(diag: Diags<IPersPoint>, n: nat)
    reads diag
  {
    PointsBelow(diag.data, n)
  }

  ghost predicate PointsBelow(data: map<int, seq<IPersPoint>>, n: nat) {
    forall d, q :: q in Lookup(data, d) ==> 0 <= q.born < n && 0 <= q.die < n
  }

  /** Appending an index pair below `n` keeps every pair below `n`. */
  lemma PointsBelowAppend(m: map<int, seq<IPersPoint>>, dim: int, p: IPersPoint, n: nat)
    requires PointsBelow(m, n) && 0 <= p.born < n && 0 <= p.die < n
    ensures PointsBelow(m[dim := Lookup(m, dim) + [p]], n)
  {
    var m' := m[dim := Lookup(m, dim) + [p]];
    forall d: int, q: IPersPoint | q in Lookup(m', d) ensures 0 <= q.born < n && 0 <= q.die < n {
      if d != dim {
        assert Lookup(m', d) == Lookup(m, d);
      } else if q !in Lookup(m, dim) {
        assert Lookup(m', d) == Lookup(m, dim) + [p];
      }
    }
  }

  /** Appending a point that the set lacks keeps the list and the set in step. */
  lemma CountsStep(list: seq<IPersPoint>, S: set<IPersPoint>, p: IPersPoint)
    requires multiset(list) == multiset(S) && p !in S
    ensures multiset(list + [p]) == multiset(S + {p})
  {
    calc {
      multiset(S + {p});
      multiset(S) + multiset{p};
      multiset(list) + multiset([p]);
      multiset(list + [p]);
    }
  }

  /** Appending the pair of one more row under its column's dimension keeps the lists in step with the pairs of the rows so far. */
  lemma IndexStep(m: map<int, seq<IPersPoint>>, low: map<nat, nat>, done: set<nat>, row: nat, ord: seq<Simplex>)
    requires forall r :: r in low ==> r < |ord| && low[r] < |ord|
    requires done <= low.Keys && row in low && row !in done
    requires forall d :: multiset(Lookup(m, d)) == multiset(IPoints(low, done, ord, d))
    ensures var dim := ord[low[row]].Dim();
            var m' := m[dim := Lookup(m, dim) + [IPersPoint(row, low[row])]];
            forall d :: multiset(Lookup(m', d)) == multiset(IPoints(low, done + {row}, ord, d))
  {
    var dim := ord[low[row]].Dim();
    var m' := m[dim := Lookup(m, dim) + [IPersPoint(row, low[row])]];
    forall d ensures multiset(Lookup(m', d)) == multiset(IPoints(low, done + {row}, ord, d)) {
      IndexStepAt(m, low, done, row, ord, d);
    }
  }

  lemma IndexStepAt(m: map<int, seq<IPersPoint>>, low: map<nat, nat>, done: set<nat>, row: nat, ord: seq<Simplex>, d: int)
    requires forall r :: r in low ==> r < |ord| && low[r] < |ord|
    requires done <= low.Keys && row in low && row !in done
    requires multiset(Lookup(m, d)) == multiset(IPoints(low, done, ord, d))
    ensures var dim := ord[low[row]].Dim();
            var m' := m[dim := Lookup(m, dim) + [IPersPoint(row, low[row])]];
            multiset(Lookup(m', d)) == multiset(IPoints(low, done + {row}, ord, d))
  {
    var p := IPersPoint(row, low[row]);
    IPointsStep(low, done, row, ord, d);
    if d == ord[low[row]].Dim() {
      CountsStep(Lookup(m, d), IPoints(low, done, ord, d), p);
    }
  }

  /** Every index point of the list is born before it dies. */
  ghost predicate IndexOrdered(list: seq<IPersPoint>) {
    forall q :: q in list ==> q.born < q.die
  }

  /** Every weight point of the list is born at a weight no greater than the one it dies at. */
  ghost predicate WeightOrdered(list: seq<PersPoint>) {
    forall q :: q in list ==> q.born <= q.die
  }

  /** A list holding the index points of a pairing whose rows precede their columns is born before it dies. */
  lemma ListForward(list: seq<IPersPoint>, low: map<nat, nat>, ord: seq<Simplex>, d: int)
    requires forall r :: r in low ==> r < |ord| && low[r] < |ord|
    requires LowsForward(low) && multiset(list) == multiset(IPoints(low, low.Keys, ord, d))
    ensures IndexOrdered(list)
  {
    forall q | q in list ensures q.born < q.die {
      assert q in multiset(list);
    }
  }

  /** Weighing index points born before they die by ascending weights gives points born no later than they die. */
  lemma ToWeightsOrdered(ps: seq<IPersPoint>, ws: seq<real>)
    requires forall q :: q in ps ==> 0 <= q.born < |ws| && 0 <= q.die < |ws|
    requires IndexOrdered(ps) && Ascending(ws)
    ensures WeightOrdered(ToWeights(ps, ws))
  {
    var r := ToWeights(ps, ws);
    forall q | q in r ensures q.born <= q.die {
      var k :| 0 <= k < |r| && r[k] == q;
      assert ps[k] in ps;
    }
  }

  /** One pass of the loop of `construct_ipers_diag`: the pair of `row` is appended under the dimension of its column. */
  method AddIndexPoint(diag: Diags<IPersPoint>, low: map<nat, nat>, ghost done: set<nat>, row: nat, ord: seq<Simplex>)
    requires forall r :: r in low ==> r < |ord| && low[r] < |ord|
    requires done <= low.Keys && row in low && row !in done
    requires diag.Valid() && IndicesBelow(diag, |ord|)
    requires forall d :: multiset(diag.Diag(d)) == multiset(IPoints(low, done, ord, d))
    modifies diag
    ensures diag.Valid() && IndicesBelow(diag, |ord|)
    ensures forall d :: multiset(diag.Diag(d)) == multiset(IPoints(low, done + {row}, ord, d))
  {
    var p := IPersPoint(row, low[row]);
    var dim := ord[low[row]].Dim();
    ghost var m := diag.data;
    ghost var m' := m[dim := Lookup(m, dim) + [p]];
    IndexStep(m, low, done, row, ord);
    PointsBelowAppend(m, dim, p, |ord|);
    diag.AddPoint(p, dim);
    assert diag.data == m';
  }

  /** The loop of `construct_ipers_diag`: a fresh diagram holding, under its dimension, the index pair of each row of `low`. */
  method IndexDiagram(low: map<nat, nat>, ord: seq<Simplex>) returns (diag: Diags<IPersPoint>)
    requires forall r :: r in low ==> r < |ord| && low[r] < |ord|
    ensures fresh(diag) && diag.Valid() && IndicesBelow(diag, |ord|)
    ensures forall d :: multiset(diag.Diag(d)) == multiset(IPoints(low, low.Keys, ord, d))
  {
    diag := new Diags<IPersPoint>();
    var todo := low.Keys;
    ghost var done: set<nat> := {};
    while todo != {}
      invariant todo <= low.Keys && done == low.Keys - todo
      invariant fresh(diag) && diag.Valid() && IndicesBelow(diag, |ord|)
      invariant forall d :: multiset(diag.Diag(d)) == multiset(IPoints(low, done, ord, d))
      decreases |todo|
    {
      var row := Extrema.Choose(todo);
      AddIndexPoint(diag, low, done, row, ord);
      Extrema.Moved(low.Keys, todo, done, row);
      done := done + {row};
      todo := todo - {row};
    }
    Extrema.Exhausted(low.Keys, todo, done);
  }

  /**
   * The inner loop of `construct_pers_diag` for one dimension: the weight
   * pair of each index pair of `list` is appended, in order, under `dim`,
   * which had no list yet; the other dimensions are unchanged.
   */
  method WeighDimension(diag: Diags<PersPoint>, list: seq<IPersPoint>, dim: int, ws: seq<real>)
    requires forall q :: q in list ==> 0 <= q.born < |ws| && 0 <= q.die < |ws|
    requires diag.Valid() && dim !in diag.data && list != []
    modifies diag
    ensures diag.Valid() && diag.dims == old(diag.dims) + [dim]
    ensures diag.Diag(dim) == ToWeights(list, ws)
    ensures forall d :: d != dim ==> diag.Diag(d) == old(diag.Diag(d))
  {
    var k := 0;
    while k < |list|
      invariant 0 <= k <= |list| && diag.Valid()
      invariant diag.dims == old(diag.dims) + (if k == 0 then [] else [dim])
      invariant forall d :: d != dim ==> diag.Diag(d) == old(diag.Diag(d))
      invariant diag.Diag(dim) == ToWeights(list[..k], ws)
    {
      ToWeightsAppend(list[..k], list[k], ws);
      assert list[..k + 1] == list[..k] + [list[k]];
      diag.AddPoint(PersPoint(ws[list[k].born], ws[list[k].die]), dim);
      k := k + 1;
    }
    assert list[..k] == list;
  }

  /**
   * The loop of `construct_pers_diag`: a fresh diagram whose dimensions come
   * in the order of `src` and whose list for each is the weight pairs of the
   * index pairs of `src`, in the same order.
   */
  method WeighDiagrams(src: Diags<IPersPoint>, ws: seq<real>) returns (diag: Diags<PersPoint>)
    requires src.Valid() && IndicesBelow(src, |ws|)
    ensures fresh(diag) && diag.Valid() && diag.dims == src.dims
    ensures forall d :: diag.Diag(d) == ToWeights(src.Diag(d), ws)
  {
    diag := new Diags<PersPoint>();
    var i := 0;
    while i < |src.dims|
      invariant 0 <= i <= |src.dims| && fresh(diag) && diag.Valid()
      invariant diag.dims == src.dims[..i]
      invariant forall d :: d in src.dims[..i] ==> diag.Diag(d) == ToWeights(src.Diag(d), ws)
      invariant forall d :: d !in src.dims[..i] ==> diag.Diag(d) == []
    {
      var dim := src.dims[i];
      assert dim !in src.dims[..i] by {
        forall k | 0 <= k < i ensures src.dims[k] != dim { }
      }
      WeighDimension(diag, src.Diag(dim), dim, ws);
      assert src.dims[..i + 1] == src.dims[..i] + [dim];
      i := i + 1;
    }
    assert src.dims[..i] == src.dims;
    forall d | d !in src.dims ensures diag.Diag(d) == ToWeights(src.Diag(d), ws) {
      assert d !in src.data;
    }
  }

  class PersHomZ2Old {
    /** `__simplex_ordering`. */
    const ordering: seq<Simplex>
    /** `__weights`. */
    const weights: seq<real>
    /** `__simplex_count`. */
    const count: nat
    /** `__boundary`: the n-by-n 0/1 matrix built by `__init__`. */
    const boundary: array2<bool>
    /** The columns of the boundary, as sets of rows. */
    ghost const columns: seq<set<nat>>
    /** `__reduced_boundary`: null until `reduce_boundary`. */
    var reduced: array2?<bool>
    /** `__lowest_rows`: None until `reduce_boundary`. */
    var lowest: Option<map<nat, nat>>
    /** `__ipers_diag`: null until `construct_ipers_diag`. */
    var ipers: Diags?<IPersPoint>
    /** `__pers_diag`: null until `construct_pers_diag`. */
    var pers: Diags?<PersPoint>

    ghost predicate Valid()
      reads this, boundary, ipers, pers
    {
      count == |ordering| == |weights| == |columns| &&
      boundary.Length0 == count && Mirrors(boundary, columns) && RowsBelow(columns, count) &&
      (reduced == null <==> lowest.None?) &&
      (lowest.Some? ==> forall r :: r in lowest.value ==> r < count && lowest.value[r] < count) &&
      (ipers != null ==> ipers.Valid() && IndicesBelow(ipers, count)) &&
      (pers != null ==> pers.Valid())
    }

    /**
     * `__init__`: the ordering and the weights of the filtered complex, and a
     * boundary with a 1 in row `j` of column `i` when `j < i` and the simplex at
     * `j` is a facet of the simplex at `i`. No stage has run yet.
     */
    constructor (fc: FilteredComplexes.FilteredComplex)
      requires fc.Valid()
      ensures Valid() && reduced == null && ipers == null && pers == null
      ensures Enumerates(ordering, fc.weights.Keys) && SortedBy(ordering, FilteredComplexes.WeightKey(fc.weights))
      ensures forall i :: 0 <= i < count ==> weights[i] == fc.weights[ordering[i]] && columns[i] == EarlierFacets(ordering, i)
      ensures Triangular(columns) && Ascending(weights)
    {
      var ord, ws := ReadFiltration(fc);
      var b := EarlierFacetsBoundary(ord);
      ghost var cols := seq(|ord|, i requires 0 <= i < |ord| => EarlierFacets(ord, i));
      forall c | 0 <= c < |ord| ensures Column(b, c) == cols[c] {
        assert forall j :: j in Column(b, c) <==> j in EarlierFacets(ord, c);
      }
      ordering := ord;
      weights := ws;
      count := |ord|;
      boundary := b;
      columns := cols;
      reduced := null;
      lowest := None;
      ipers := null;
      pers := null;
    }

    /**
     * `reduce_boundary`: a copy of the boundary is reduced in place; the
     * reduced copy and the pairing are stored, the boundary is unchanged.
     */
    method ReduceBoundary()
      requires Valid()
      modifies this
      ensures Valid()
      ensures reduced != null && fresh(reduced) && Mirrors(reduced, Reduce(columns, count).cols)
      ensures lowest == Some(Reduce(columns, count).low)
      ensures ipers == old(ipers) && pers == old(pers)
    {
      var w := CopyMatrix(boundary, columns);
      var low := ReduceDense(w, columns);
      ReduceBelow(columns, count, count);
      reduced := w;
      lowest := Some(low);
    }

    /**
     * `construct_ipers_diag`: fails unless the boundary was reduced; else a
     * fresh index diagram holds each pair (row, column) of the pairing once,
     * under the dimension of the column's simplex.
     */
    method ConstructIPersDiag() returns (r: Outcome<StageError>)
      requires Valid()
      modifies this
      ensures Valid()
      ensures r.Fail? <==> old(reduced) == null
      ensures r.Fail? ==> r.error == BoundaryNotReduced && ipers == old(ipers)
      ensures r.Pass? ==> ipers != null && fresh(ipers) && lowest.Some?
      ensures r.Pass? ==> forall d :: multiset(ipers.Diag(d)) == multiset(IPoints(lowest.value, lowest.value.Keys, ordering, d))
      ensures reduced == old(reduced) && lowest == old(lowest) && pers == old(pers)
    {
      if reduced == null {
        return Fail(BoundaryNotReduced);
      }
      var diag := IndexDiagram(lowest.value, ordering);
      ipers := diag;
      return Pass;
    }

    /**
     * `construct_pers_diag`: fails unless the index diagram exists; else a
     * fresh diagram has, under each dimension and in the same order, the
     * weight pair of each index pair.
     */
    method ConstructPersDiag() returns (r: Outcome<StageError>)
      requires Valid()
      modifies this
      ensures Valid()
      ensures r.Fail? <==> old(ipers) == null
      ensures r.Fail? ==> r.error == IndexDiagramMissing && pers == old(pers)
      ensures r.Pass? ==> pers != null && fresh(pers) && ipers != null && pers.dims == ipers.dims
      ensures r.Pass? ==> forall d :: pers.Diag(d) == ToWeights(ipers.Diag(d), weights)
      ensures reduced == old(reduced) && lowest == old(lowest) && ipers == old(ipers)
    {
      if ipers == null {
        return Fail(IndexDiagramMissing);
      }
      pers := WeighDiagrams(ipers, weights);
      return Pass;
    }

    /** `compute`: the three stages in turn, each of which then succeeds. */
    method Compute()
      requires Valid()
      modifies this
      ensures Valid()
      ensures reduced != null && Mirrors(reduced, Reduce(columns, count).cols)
      ensures lowest == Some(Reduce(columns, count).low)
      ensures ipers != null && pers != null
      ensures forall d :: multiset(ipers.Diag(d)) == multiset(IPoints(lowest.value, lowest.value.Keys, ordering, d))
      ensures pers.dims == ipers.dims
      ensures forall d :: pers.Diag(d) == ToWeights(ipers.Diag(d), weights)
      ensures Triangular(columns) ==> forall d :: IndexOrdered(ipers.Diag(d))
      ensures Triangular(columns) && Ascending(weights) ==> forall d :: WeightOrdered(pers.Diag(d))
    {
      ReduceBoundary();
      var a := ConstructIPersDiag();
      var b := ConstructPersDiag();
      if Triangular(columns) {
        ReduceForward(columns, count);
        forall d ensures IndexOrdered(ipers.Diag(d)) {
          ListForward(ipers.Diag(d), lowest.value, ordering, d);
        }
        if Ascending(weights) {
          forall d ensures WeightOrdered(pers.Diag(d)) {
            ToWeightsOrdered(ipers.Diag(d), weights);
          }
        }
      }
    }

    /** `get_boundary`: the reduced boundary, once `reduce_boundary` has run. */
    function GetBoundary(): (r: Result<array2<bool>, StageError>)
      reads this
      ensures r.Success? <==> reduced != null
      ensures r.Success? ==> r.value == reduced
      ensures r.Failure? ==> r.error == BoundaryNotReduced
    {
      if reduced == null then Failure(BoundaryNotReduced) else Success(reduced)
    }

    /** `get_ipers_diags`: the index diagram, once `construct_ipers_diag` has run. */
    function GetIPersDiags(): (r: Result<Diags<IPersPoint>, StageError>)
      reads this
      ensures r.Success? <==> ipers != null
      ensures r.Success? ==> r.value == ipers
      ensures r.Failure? ==> r.error == IndexDiagramMissing
    {
      if ipers == null then Failure(IndexDiagramMissing) else Success(ipers)
    }

    /** `get_pers_diags`: the weight diagram, once `construct_pers_diag` has run. */
    function GetPersDiags(): (r: Result<Diags<PersPoint>, StageError>)
      reads this
      ensures r.Success? <==> pers != null
      ensures r.Success? ==> r.value == pers
      ensures r.Failure? ==> r.error == DiagramMissing
    {
      if pers == null then Failure(DiagramMissing) else Success(pers)
    }

    /** `get_ipers_diag(dim)`: the index pairs of one dimension; it fails before `construct_ipers_diag`. */
    function GetIPersDiag(dim: int): (r: Result<seq<IPersPoint>, StageError>)
      reads this, ipers
      ensures r.Success? <==> ipers != null
      ensures r.Success? ==> r.value == ipers.Diag(dim)
    {
      if ipers == null then Failure(IndexDiagramMissing) else Success(ipers.Diag(dim))
    }

    /** `get_pers_diag(dim)`: the weight pairs of one dimension; it fails before `construct_pers_diag`. */
    function GetPersDiag(dim: int): (r: Result<seq<PersPoint>, StageError>)
      reads this, pers
      ensures r.Success? <==> pers != null
      ensures r.Success? ==> r.value == pers.Diag(dim)
    {
      if pers == null then Failure(DiagramMissing) else Success(pers.Diag(dim))
    }
  }
}
