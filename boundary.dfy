/**
 * The boundary matrices the reducers build in their constructors
 * (PersistentHomology/PersHom1.py, PersHom2.py, PersHom4.py and
 * PersHomZ2Old.py): column `i` holds a 1 in row `j` when the simplex at
 * position `j` of the filtration is a facet of the simplex at position `i`.
 */
module Boundaries {
  import opened Wrappers
  import opened Simplices
  import opened Sorting
  import FilteredComplexes
  import Extrema
  import ColumnReduction

  /** Why a constructor raises: a facet other than the empty simplex is not in the filtration. */
  datatype BoundaryError = MissingFacet

  /** The positions in `ord` of the facets of the simplex at position `i`. */
  ghost function FacetPositions(ord: seq<Simplex>, i: nat): set<nat>
    requires i < |ord|
  {
    set j: nat | j < |ord| && ord[j] in ord[i].Facets()
  }

  /** Every facet of every listed simplex is listed too, except the empty simplex. */
  ghost predicate FacetsListed(ord: seq<Simplex>) {
    forall i, f :: 0 <= i < |ord| && f in ord[i].Facets() && f.Dim() != -1 ==> f in ord
  }

  /**
   * The first lines of each constructor: `get_simplex_ordering()` and
   * `get_weight_ordering()` of the filtered complex, which list the simplices
   * by ascending weight and their weights position by position.
   */
  method ReadFiltration(fc: FilteredComplexes.FilteredComplex) returns (ord: seq<Simplex>, ws: seq<real>)
    requires fc.Valid()
    ensures Enumerates(ord, fc.weights.Keys) && SortedBy(ord, FilteredComplexes.WeightKey(fc.weights))
    ensures |ws| == |ord| && forall i :: 0 <= i < |ord| ==> ws[i] == fc.weights[ord[i]]
    ensures Ascending(ws)
  {
    ord := fc.GetSimplexOrdering();
    ws := fc.GetWeightOrdering();
    FilteredComplexes.OrderingsAligned(fc.weights, ord, ws);
    forall i, j | 0 <= i < j < |ws| ensures ws[i] <= ws[j] {
      assert FilteredComplexes.WeightKey(fc.weights)(ord[i]) <= FilteredComplexes.WeightKey(fc.weights)(ord[j]);
    }
  }

  /** Every facet of a simplex of `S`, other than the empty simplex, is in `S`. */
  ghost predicate FacetClosed(S: set<Simplex>) {
    forall s, f :: s in S && f in s.Facets() && f.Dim() != -1 ==> f in S
  }

  /** Whether every facet is listed does not depend on the order of the listing. */
  lemma ListedIffClosed(ord: seq<Simplex>, S: set<Simplex>)
    requires Enumerates(ord, S)
    ensures FacetsListed(ord) <==> FacetClosed(S)
  {
    if FacetsListed(ord) {
      forall s, f | s in S && f in s.Facets() && f.Dim() != -1 ensures f in S {
        var i :| 0 <= i < |ord| && ord[i] == s;
      }
    }
  }

  /** `m` is the dictionary `simplex_to_order` of `ord`: each listed simplex at a position where it stands. */
  ghost predicate IndexOf(m: map<Simplex, nat>, ord: seq<Simplex>) {
    (forall s :: s in m <==> s in ord) && (forall s :: s in m ==> m[s] < |ord| && ord[m[s]] == s)
  }

  /** `simplex_to_order[simplex] = i` for each position `i`. */
  method BuildIndex(ord: seq<Simplex>) returns (m: map<Simplex, nat>)
    ensures IndexOf(m, ord)
  {
    m := map[];
    var i := 0;
    while i < |ord|
      invariant 0 <= i <= |ord|
      invariant forall s :: s in m <==> s in ord[..i]
      invariant forall s :: s in m ==> m[s] < i && ord[m[s]] == s
    {
      m := m[ord[i] := i];
      i := i + 1;
      assert ord[..i] == ord[..i - 1] + [ord[i - 1]];
    }
    assert ord[..i] == ord;
  }

  /** In a list without repeats, the index finds every simplex at its own position. */
  lemma IndexIsPosition(m: map<Simplex, nat>, ord: seq<Simplex>, j: nat)
    requires IndexOf(m, ord) && Distinct(ord) && j < |ord|
    ensures ord[j] in m && m[ord[j]] == j
  {
    assert ord[j] in ord;
  }

  /** The positions the index gives those simplices of `fs` that it holds. */
  ghost function Image(m: map<Simplex, nat>, fs: set<Simplex>): set<nat> {
    set f | f in fs && f in m :: m[f]
  }

  /** The positions the index gives the facets of `s` that it holds. */
  ghost function Positions(m: map<Simplex, nat>, s: Simplex): set<nat> {
    Image(m, s.Facets())
  }

  lemma ImageStep(m: map<Simplex, nat>, fs: set<Simplex>, f: Simplex)
    ensures Image(m, fs + {f}) == if f in m then Image(m, fs) + {m[f]} else Image(m, fs)
  {
  }

  /** Looked up in the index of a list without repeats, the facets of the simplex at `i` are at its facet positions. */
  lemma PositionsAreFacets(m: map<Simplex, nat>, ord: seq<Simplex>, i: nat)
    requires IndexOf(m, ord) && Distinct(ord) && i < |ord|
    ensures Positions(m, ord[i]) == FacetPositions(ord, i)
  {
    forall j | j in FacetPositions(ord, i) ensures j in Positions(m, ord[i]) {
      IndexIsPosition(m, ord, j);
    }
  }

  /** Every simplex of `fs` that the index lacks is the empty simplex. */
  ghost predicate OnlyEmptyMissing(m: map<Simplex, nat>, fs: set<Simplex>) {
    forall f :: f in fs && f !in m ==> f.Dim() == -1
  }

  lemma OnlyEmptyStep(m: map<Simplex, nat>, fs: set<Simplex>, f: Simplex)
    requires OnlyEmptyMissing(m, fs) && (f in m || f.Dim() == -1)
    ensures OnlyEmptyMissing(m, fs + {f})
  {
  }

  /**
   * The loop over `simplex.facets` in the constructors: the positions of the
   * facets, skipping a missing empty simplex and raising on any other
   * missing facet.
   */
  method FacetColumn(m: map<Simplex, nat>, s: Simplex) returns (r: Result<set<nat>, BoundaryError>)
    ensures r.Success? <==> OnlyEmptyMissing(m, s.Facets())
    ensures r.Success? ==> r.value == Positions(m, s)
  {
    var col: set<nat> := {};
    var todo := s.Facets();
    ghost var done: set<Simplex> := {};
    while todo != {}
      invariant todo <= s.Facets() && done == s.Facets() - todo
      invariant OnlyEmptyMissing(m, done)
      invariant col == Image(m, done)
      decreases |todo|
    {
      var f := Extrema.Choose(todo);
      ImageStep(m, done, f);
      if f !in m {
        if f.Dim() != -1 {
          return Failure(MissingFacet);
        }
      } else {
        col := col + {m[f]};
      }
      OnlyEmptyStep(m, done, f);
      Extrema.Moved(s.Facets(), todo, done, f);
      done := done + {f};
      todo := todo - {f};
    }
    Extrema.Exhausted(s.Facets(), todo, done);
    return Success(col);
  }

  /** Every facet of the simplex at `i`, other than the empty simplex, is listed. */
  ghost predicate ListedAt(ord: seq<Simplex>, i: nat)
    requires i < |ord|
  {
    forall f :: f in ord[i].Facets() && f.Dim() != -1 ==> f in ord
  }

  /** A facet the index lacks, other than the empty simplex, is a facet the list lacks. */
  lemma MissingIsUnlisted(m: map<Simplex, nat>, ord: seq<Simplex>, i: nat)
    requires IndexOf(m, ord) && i < |ord|
    ensures OnlyEmptyMissing(m, ord[i].Facets()) <==> ListedAt(ord, i)
  {
  }

  /** The columns `0` to `i - 1` have every facet listed. */
  ghost predicate ListedUpTo(ord: seq<Simplex>, i: nat) {
    forall k :: 0 <= k < i && k < |ord| ==> ListedAt(ord, k)
  }

  lemma ListedAll(ord: seq<Simplex>)
    requires ListedUpTo(ord, |ord|)
    ensures FacetsListed(ord)
  {
    forall i, f | 0 <= i < |ord| && f in ord[i].Facets() && f.Dim() != -1 ensures f in ord {
      assert ListedAt(ord, i);
    }
  }

  lemma UnlistedAt(ord: seq<Simplex>, i: nat)
    requires i < |ord| && !ListedAt(ord, i)
    ensures !FacetsListed(ord)
  {
  }

  lemma ListedStep(ord: seq<Simplex>, i: nat)
    requires i < |ord| && ListedUpTo(ord, i) && ListedAt(ord, i)
    ensures ListedUpTo(ord, i + 1)
  {
  }

  /** The first `|cols|` columns are the facet positions of the first simplices. */
  ghost predicate ColumnsSoFar(cols: seq<set<nat>>, ord: seq<Simplex>) {
    |cols| <= |ord| && forall k :: 0 <= k < |cols| ==> cols[k] == FacetPositions(ord, k)
  }

  lemma ColumnsStep(cols: seq<set<nat>>, ord: seq<Simplex>, c: set<nat>)
    requires ColumnsSoFar(cols, ord) && |cols| < |ord| && c == FacetPositions(ord, |cols|)
    ensures ColumnsSoFar(cols + [c], ord)
  {
  }

  /**
   * The sparse boundary of PersHom2 and PersHom4: `boundary[i]` is the set of
   * facet positions of the simplex at `i`. It fails exactly when some facet
   * other than the empty simplex is missing from the filtration.
   */
  method SparseBoundary(ord: seq<Simplex>) returns (r: Result<seq<set<nat>>, BoundaryError>)
    requires Distinct(ord)
    ensures r.Success? <==> FacetsListed(ord)
    ensures r.Success? ==> |r.value| == |ord| && forall i :: 0 <= i < |ord| ==> r.value[i] == FacetPositions(ord, i)
  {
    var m := BuildIndex(ord);
    var cols: seq<set<nat>> := [];
    var i := 0;
    while i < |ord|
      invariant 0 <= i <= |ord| && |cols| == i
      invariant ListedUpTo(ord, i)
      invariant ColumnsSoFar(cols, ord)
    {
      var c := FacetColumn(m, ord[i]);
      MissingIsUnlisted(m, ord, i);
      if c.Failure? {
        UnlistedAt(ord, i);
        return Failure(MissingFacet);
      }
      PositionsAreFacets(m, ord, i);
      ListedStep(ord, i);
      ColumnsStep(cols, ord, c.value);
      cols := cols + [c.value];
      i := i + 1;
    }
    ListedAll(ord);
    return Success(cols);
  }

  /** Every facet position is a position of the list. */
  lemma PositionsInRange(ord: seq<Simplex>, i: nat)
    requires i < |ord|
    ensures forall j :: j in FacetPositions(ord, i) ==> j < |ord|
  {
  }

  /** `a` holds the boundary columns `0` to `i - 1` of `ord`, and zeros elsewhere, with the rows `extra` of column `i` set. */
  ghost predicate DenseSoFar(a: array2<bool>, ord: seq<Simplex>, i: nat, extra: set<nat>)
    reads a
  {
    a.Length0 == |ord| && a.Length1 == |ord| &&
    forall j, k :: 0 <= j < |ord| && 0 <= k < |ord| ==>
      (a[j, k] <==> (k < i && j in FacetPositions(ord, k)) || (k == i && j in extra))
  }

  /**
   * The dense boundary of PersHom1: an n-by-n matrix, zero but for a 1 in row
   * `j` of column `i` for each facet at position `j` of the simplex at `i`.
   * It fails exactly when some facet other than the empty simplex is missing.
   */
  method DenseBoundary(ord: seq<Simplex>) returns (r: Result<array2<bool>, BoundaryError>)
    requires Distinct(ord)
    ensures r.Success? <==> FacetsListed(ord)
    ensures r.Success? ==> fresh(r.value) && r.value.Length0 == |ord| && r.value.Length1 == |ord|
    ensures r.Success? ==> forall j, i :: 0 <= j < |ord| && 0 <= i < |ord| ==> (r.value[j, i] <==> j in FacetPositions(ord, i))
  {
    var n := |ord|;
    var m := BuildIndex(ord);
    var a := new bool[n, n]((j, i) => false);
    var i := 0;
    while i < n
      invariant 0 <= i <= n && fresh(a)
      invariant ListedUpTo(ord, i)
      invariant DenseSoFar(a, ord, i, {})
    {
      var c := FacetColumn(m, ord[i]);
      MissingIsUnlisted(m, ord, i);
      if c.Failure? {
        UnlistedAt(ord, i);
        return Failure(MissingFacet);
      }
      PositionsAreFacets(m, ord, i);
      PositionsInRange(ord, i);
      ListedStep(ord, i);
      FillColumn(a, ord, i, c.value);
      i := i + 1;
    }
    ListedAll(ord);
    return Success(a);
  }

  /** `boundary_matrix[j][i] = 1` for every facet position `j` of the simplex at `i`. */
  method FillColumn(a: array2<bool>, ord: seq<Simplex>, i: nat, col: set<nat>)
    requires i < |ord| && DenseSoFar(a, ord, i, {}) && col == FacetPositions(ord, i)
    requires forall j :: j in col ==> j < |ord|
    modifies a
    ensures DenseSoFar(a, ord, i + 1, {})
  {
    var todo := col;
    while todo != {}
      invariant todo <= col
      invariant DenseSoFar(a, ord, i, col - todo)
      decreases |todo|
    {
      var j := Extrema.Choose(todo);
      a[j, i] := true;
      todo := todo - {j};
    }
  }

  /** Every facet of a simplex comes before it in the list. */
  ghost predicate FacetsFirst(ord: seq<Simplex>) {
    forall i, j :: 0 <= i < |ord| && 0 <= j < |ord| && ord[j] in ord[i].Facets() ==> j < i
  }

  /**
   * The boundary of PersHomZ2Old: a 1 in row `j` of column `i` when `j < i`
   * and the simplex at `j` is a facet of the simplex at `i`; a missing facet
   * is not checked.
   */
  method EarlierFacetsBoundary(ord: seq<Simplex>) returns (a: array2<bool>)
    ensures fresh(a) && a.Length0 == |ord| && a.Length1 == |ord|
    ensures forall j, i :: 0 <= j < |ord| && 0 <= i < |ord| ==> (a[j, i] <==> j < i && ord[j] in ord[i].Facets())
  {
    var n := |ord|;
    a := new bool[n, n]((j, i) => false);
    var i := 0;
    while i < n
      invariant 0 <= i <= n
      invariant forall j, k :: 0 <= j < n && 0 <= k < n ==> (a[j, k] <==> k < i && j < k && ord[j] in ord[k].Facets())
    {
      var j := 0;
      while j < i
        invariant 0 <= j <= i
        invariant forall x, k :: 0 <= x < n && 0 <= k < n ==>
                    (a[x, k] <==> (k < i && x < k && ord[x] in ord[k].Facets()) || (k == i && x < j && ord[x] in ord[i].Facets()))
      {
        if ord[j] in ord[i].Facets() {
          a[j, i] := true;
        }
        j := j + 1;
      }
      i := i + 1;
    }
  }

  /** When every facet comes first, the old boundary is the full boundary. */
  lemma EarlierFacetsAreAll(ord: seq<Simplex>, i: nat, j: nat)
    requires FacetsFirst(ord) && i < |ord| && j < |ord|
    ensures (j < i && ord[j] in ord[i].Facets()) <==> j in FacetPositions(ord, i)
  {
  }

  /**
   * The facet-position boundary has its rows inside the listing, and every
   * row above its column exactly when every facet comes first.
   */
  lemma FacetsFirstIffTriangular(ord: seq<Simplex>, cols: seq<set<nat>>)
    requires |cols| == |ord| && forall i :: 0 <= i < |ord| ==> cols[i] == FacetPositions(ord, i)
    ensures ColumnReduction.RowsBelow(cols, |ord|)
    ensures FacetsFirst(ord) <==> ColumnReduction.Triangular(cols)
  {
    forall i | 0 <= i < |ord| {
      PositionsInRange(ord, i);
    }
    if ColumnReduction.Triangular(cols) {
      forall i, j | 0 <= i < |ord| && 0 <= j < |ord| && ord[j] in ord[i].Facets() ensures j < i {
        assert j in cols[i];
      }
    }
  }

  /**
   * A weight-sorted listing of a complex whose facets weigh strictly less
   * than their cofaces puts every facet first. With equal weights the sort
   * may list a coface before its facet.
   */
  lemma LighterFacetsFirst(w: map<Simplex, real>, ord: seq<Simplex>)
    requires Enumerates(ord, w.Keys) && SortedBy(ord, FilteredComplexes.WeightKey(w))
    requires forall s, f :: s in w && f in w && f in s.Facets() ==> w[f] < w[s]
    ensures FacetsFirst(ord)
  {
    forall i, j | 0 <= i < |ord| && 0 <= j < |ord| && ord[j] in ord[i].Facets() ensures j < i {
      assert ord[i] in w && ord[j] in w;
    }
  }
}

