/**
 * Complexes/FilteredSimplicialComplex.py: a simplicial complex whose
 * simplices carry weights (the filtration values). The dictionary of sets
 * and the weight dictionary are updated in place.
 */
module FilteredComplexes {
  import opened Wrappers
  import opened Simplices
  import opened DimIndex
  import opened Sorting
  import Extrema

  /**
   * The reasons the source raises `ValueError`: a facet missing or heavier
   * on a checked insertion, an absent simplex, and `max` over the dimensions
   * of a complex that has none.
   */
  datatype ComplexError = MissingFacet | HeavierFacet | NotInComplex | NoSimplices

  /** Every stored simplex of dimension at least 1 has its facets stored, none heavier than itself. */
  ghost predicate Filtration(w: map<Simplex, real>) {
    forall s :: s in w && s.Dim() >= 1 ==> FacetsFit(w, s, w[s])
  }

  /** Every facet of `s` is present with weight at most `x`. */
  ghost predicate FacetsFit(w: map<Simplex, real>, s: Simplex, x: real) {
    forall f :: f in s.Facets() ==> f in w && w[f] <= x
  }

  ghost predicate FacetMissing(w: map<Simplex, real>, s: Simplex) {
    exists f :: f in s.Facets() && f !in w
  }

  ghost predicate FacetHeavier(w: map<Simplex, real>, s: Simplex, x: real) {
    exists f :: f in s.Facets() && f in w && w[f] > x
  }

  /** The weight of a simplex as a sort key (`lambda k: self.__weights[k]`). */
  function WeightKey(w: map<Simplex, real>): Simplex -> real {
    s => if s in w then w[s] else 0.0
  }

  /** The simplices of weight at most `limit`, with their weights. */
  function Restrict(w: map<Simplex, real>, limit: real): (r: map<Simplex, real>)
    ensures forall s :: s in r <==> s in w && w[s] <= limit
    ensures forall s :: s in r ==> r[s] == w[s]
  {
    map s | s in w && w[s] <= limit :: w[s]
  }

  class FilteredComplex {
    /** Dimension -> the simplices of that dimension (`__simplices`). */
    var simplices: map<int, set<Simplex>>
    /** `__weights`. */
    var weights: map<Simplex, real>
    /** `__check_valid`. */
    const checkValid: bool

    ghost predicate Valid()
      reads this
    {
      ByDimension(simplices) && weights.Keys == Flatten(simplices)
    }

    /** All stored simplices, whatever their dimension. */
    function Stored(): set<Simplex>
      reads this
    {
      Flatten(simplices)
    }

    constructor (checkValid: bool)
      ensures Valid() && simplices == map[] && weights == map[] && this.checkValid == checkValid
    {
      simplices := map[];
      weights := map[];
      this.checkValid := checkValid;
    }

    /** `item in complex`: false when no simplex of that dimension is stored. */
    predicate Contains(s: Simplex)
      reads this
      requires Valid()
      ensures Contains(s) <==> s in Stored()
      ensures s.Dim() !in simplices ==> !Contains(s)
    {
      MemberIsInOwnBucket(simplices, s);
      s.Dim() in simplices && s in simplices[s.Dim()]
    }

    /** `__eq__`: both dictionaries agree; the weights alone decide it. */
    predicate Equals(other: FilteredComplex)
      reads this, other
      requires Valid() && other.Valid()
      ensures Equals(other) <==> weights == other.weights
    {
      Canonical(simplices, other.simplices);
      simplices == other.simplices && weights == other.weights
    }

    /** `dim`: the largest dimension present (`max` of an empty key set raises, hence the precondition). */
    function Dim(): (d: int)
      reads this
      requires Valid() && simplices != map[]
      ensures exists s :: s in Stored() && s.Dim() == d
      ensures forall s :: s in Stored() ==> s.Dim() <= d
    {
      var d := Extrema.Max(simplices.Keys);
      var s := Extrema.Pick(simplices[d]);
      assert s in Stored();
      d
    }

    /** `size`: sums the sizes of the per-dimension sets, which is the number of stored simplices. */
    method Size() returns (n: nat)
      requires Valid()
      ensures n == |Stored()|
    {
      n := 0;
      var todo := simplices.Keys;
      FlattenInAll(simplices);
      while todo != {}
        invariant todo <= simplices.Keys
        invariant n == |FlattenIn(simplices, simplices.Keys - todo)|
        decreases |todo|
      {
        var p := Extrema.Choose(todo);
        FlattenInStep(simplices, todo, p);
        n := n + |simplices[p]|;
        todo := todo - {p};
      }
    }

    /** `p_simplices`: the stored simplices of dimension `p`, none when `p` is absent. */
    function PSimplices(p: int): (r: set<Simplex>)
      reads this
      requires Valid()
      ensures forall s :: s in r <==> s in Stored() && s.Dim() == p
    {
      BucketIsDimensionSlice(simplices, p);
      Bucket(simplices, p)
    }

    /** `p_simplex_count`: how many simplices of dimension `p` are stored. */
    function PSimplexCount(p: int): (n: nat)
      reads this
      requires Valid()
      ensures n == |PSimplices(p)|
      ensures p !in simplices ==> n == 0
    {
      if p !in simplices then 0 else |simplices[p]|
    }

    /** `__add_simplex`: files `s` under its dimension and sets its weight, overwriting an old one. */
    method Put(s: Simplex, x: real)
      requires Valid()
      modifies this
      ensures Valid()
      ensures simplices == Insert(old(simplices), s) && weights == old(weights)[s := x]
      ensures Stored() == old(Stored()) + {s}
    {
      InsertAdds(simplices, s);
      simplices := Insert(simplices, s);
      weights := weights[s := x];
    }

    /**
     * `add_simplex`: a 0-simplex is always stored. With checking on, any
     * other simplex is refused, with nothing changed, when a facet is missing
     * or weighs more than `x`; which of the two is reported depends on the
     * order the facets are visited in.
     */
    method AddSimplex(s: Simplex, x: real) returns (res: Outcome<ComplexError>)
      requires Valid()
      modifies this
      ensures Valid()
      ensures res.Fail? <==> checkValid && s.Dim() != 0 && !FacetsFit(old(weights), s, x)
      ensures res == Fail(MissingFacet) ==> FacetMissing(old(weights), s)
      ensures res == Fail(HeavierFacet) ==> FacetHeavier(old(weights), s, x)
      ensures res.Fail? ==> (res.error == MissingFacet || res.error == HeavierFacet) && simplices == old(simplices) && weights == old(weights)
      ensures res.Pass? ==> simplices == Insert(old(simplices), s) && weights == old(weights)[s := x]
      ensures res.Pass? && checkValid && old(Filtration(weights)) && s !in old(weights) ==> Filtration(weights)
    {
      if s.Dim() == 0 {
        Put(s, x);
        if Filtration(old(weights)) && s !in old(weights) {
          CheckedInsertKeepsFiltration(old(weights), s, x);
        }
        return Pass;
      }
      if checkValid {
        res := CheckFacets(s, x);
        if res.Fail? {
          return;
        }
      }
      ghost var w := weights;
      Put(s, x);
      if checkValid && Filtration(w) && s !in w {
        CheckedInsertKeepsFiltration(w, s, x);
      }
      return Pass;
    }

    /**
     * The checking loop of `add_simplex`: visits the facets, reporting the
     * first that is missing or heavier than `x`.
     */
    method CheckFacets(s: Simplex, x: real) returns (res: Outcome<ComplexError>)
      requires Valid()
      ensures res.Pass? <==> FacetsFit(weights, s, x)
      ensures res == Fail(MissingFacet) ==> FacetMissing(weights, s)
      ensures res == Fail(HeavierFacet) ==> FacetHeavier(weights, s, x)
      ensures res.Fail? ==> res.error == MissingFacet || res.error == HeavierFacet
    {
      FacetsLiveBelow(simplices, s);
      var below := Bucket(simplices, s.Dim() - 1);
      var todo := s.Facets();
      while todo != {}
        invariant todo <= s.Facets()
        invariant forall f :: f in s.Facets() && f !in todo ==> f in weights && weights[f] <= x
        decreases |todo|
      {
        var f := Extrema.Choose(todo);
        if f !in below {
          return Fail(MissingFacet);
        }
        if weights[f] > x {
          return Fail(HeavierFacet);
        }
        todo := todo - {f};
      }
      return Pass;
    }

    /** `get_weight`: the weight of a stored simplex; an absent one is an error. */
    function GetWeight(s: Simplex): (r: Result<real, ComplexError>)
      reads this
      requires Valid()
      ensures r.Success? <==> s in Stored()
      ensures r.Success? ==> r.value == weights[s]
      ensures r.Failure? ==> r.error == NotInComplex
    {
      if Contains(s) then Success(weights[s]) else Failure(NotInComplex)
    }

    /** `reweight`: changes the weight of a stored simplex and nothing else; an absent one is an error. */
    method Reweight(s: Simplex, x: real) returns (res: Outcome<ComplexError>)
      requires Valid()
      modifies this
      ensures Valid() && simplices == old(simplices)
      ensures res.Fail? <==> s !in old(Stored())
      ensures res.Fail? ==> res.error == NotInComplex && weights == old(weights)
      ensures res.Pass? ==> weights == old(weights)[s := x]
    {
      if !Contains(s) {
        return Fail(NotInComplex);
      }
      weights := weights[s := x];
      return Pass;
    }

    /** `get_edge_neighbours`: the vertices joined to `v` by a stored edge. */
    method GetEdgeNeighbours(v: nat) returns (r: set<nat>)
      requires Valid()
      ensures forall u :: u in r <==> u != v && Simplex({u, v}) in Stored()
      ensures 1 !in simplices ==> r == {}
    {
      if 1 !in simplices {
        NeighboursFromEdges(simplices, v);
        return {};
      }
      var edges := simplices[1];
      var acc: set<nat> := {};
      var todo := edges;
      ghost var done: set<Simplex> := {};
      assert Around({}, v) == {};
      while todo != {}
        invariant todo <= edges && done == edges - todo
        invariant acc == Around(done, v)
        decreases |todo|
      {
        var e := Extrema.Choose(todo);
        AroundStep(done, e, v, acc);
        if v in e.vertices {
          acc := acc + e.vertices;
        }
        Extrema.Moved(edges, todo, done, e);
        done := done + {e};
        todo := todo - {e};
      }
      Extrema.Exhausted(edges, todo, done);
      r := acc - {v};
      NeighboursFromEdges(simplices, v);
    }

    /** `get_simplex_ordering`: every stored simplex once, by ascending weight. */
    method GetSimplexOrdering() returns (ord: seq<Simplex>)
      requires Valid()
      ensures Enumerates(ord, Stored())
      ensures SortedBy(ord, WeightKey(weights))
    {
      var list: seq<Simplex> := [];
      var todo := simplices.Keys;
      FlattenInAll(simplices);
      while todo != {}
        invariant todo <= simplices.Keys
        invariant Enumerates(list, FlattenIn(simplices, simplices.Keys - todo))
        decreases |todo|
      {
        var p := Extrema.Choose(todo);
        FlattenInStep(simplices, todo, p);
        var part := ListOf(simplices[p]);
        EnumeratesConcat(list, FlattenIn(simplices, simplices.Keys - todo), part, simplices[p]);
        list := list + part;
        todo := todo - {p};
      }
      ord := SortBy(list, WeightKey(weights));
      PermutationKeepsDistinct(list, ord);
    }

    /**
     * `get_weight_ordering`: the weights in ascending order, each as often as
     * it occurs; listed along any enumeration of the simplices, the weights
     * are a permutation of the result.
     */
    method GetWeightOrdering() returns (vals: seq<real>)
      requires Valid()
      ensures Ascending(vals)
      ensures forall ks :: Enumerates(ks, weights.Keys) ==> multiset(vals) == multiset(Along(ks, WeightKey(weights)))
    {
      var keys := ListOf(weights.Keys);
      var values := Along(keys, WeightKey(weights));
      vals := SortBy(values, x => x);
      SortedByValue(vals);
      forall ks | Enumerates(ks, weights.Keys)
        ensures multiset(vals) == multiset(Along(ks, WeightKey(weights)))
      {
        EnumerationsPermute(keys, ks, weights.Keys);
        AlongPermutes(keys, ks, WeightKey(weights));
      }
    }

    /**
     * `cap`: a new unchecked complex holding the simplices of weight at most
     * `limit` with their weights, filled in simplex order up to the first
     * heavier simplex.
     */
    method Cap(limit: real) returns (fc: FilteredComplex)
      requires Valid()
      ensures fresh(fc) && fc.Valid() && !fc.checkValid
      ensures fc.weights == Restrict(weights, limit)
    {
      fc := new FilteredComplex(false);
      var ord := GetSimplexOrdering();
      var i := 0;
      while i < |ord|
        invariant 0 <= i <= |ord|
        invariant fresh(fc) && fc.Valid() && !fc.checkValid
        invariant fc.weights == Weighted(ord[..i], weights)
        invariant forall k :: 0 <= k < i ==> weights[ord[k]] <= limit
      {
        if weights[ord[i]] > limit {
          break;
        }
        var _ := fc.AddSimplex(ord[i], weights[ord[i]]);
        WeightedStep(ord, i, weights);
        i := i + 1;
      }
      assert Enumerates(ord, weights.Keys);
      CapPrefix(weights, ord, i, limit);
    }
  }

  /** The simplices listed in `ks`, with their weights in `w`. */
  ghost function Weighted(ks: seq<Simplex>, w: map<Simplex, real>): map<Simplex, real> {
    map s | s in ks && s in w :: w[s]
  }

  /** One more simplex of the ordering adds its own weight and nothing else. */
  lemma WeightedStep(ord: seq<Simplex>, i: nat, w: map<Simplex, real>)
    requires i < |ord| && ord[i] in w
    ensures Weighted(ord[..i + 1], w) == Weighted(ord[..i], w)[ord[i] := w[ord[i]]]
  {
    assert ord[..i + 1] == ord[..i] + [ord[i]];
  }

  /**
   * In an ordering by weight, the simplices before the first one heavier
   * than `limit` are exactly those of weight at most `limit`.
   */
  lemma CapPrefix(w: map<Simplex, real>, ord: seq<Simplex>, i: nat, limit: real)
    requires Enumerates(ord, w.Keys) && SortedBy(ord, WeightKey(w)) && i <= |ord|
    requires forall k :: 0 <= k < i ==> w[ord[k]] <= limit
    requires i < |ord| ==> w[ord[i]] > limit
    ensures Weighted(ord[..i], w) == Restrict(w, limit)
  {
    var a := Weighted(ord[..i], w);
    var b := Restrict(w, limit);
    LightInPrefix(w, ord, i, limit);
    PrefixIsLight(w, ord, i, limit);
    assert a.Keys == b.Keys;
    assert forall s :: s in a ==> a[s] == b[s];
  }

  /** Every simplex of weight at most `limit` comes before position `i`. */
  lemma LightInPrefix(w: map<Simplex, real>, ord: seq<Simplex>, i: nat, limit: real)
    requires Enumerates(ord, w.Keys) && SortedBy(ord, WeightKey(w)) && i <= |ord|
    requires i < |ord| ==> w[ord[i]] > limit
    ensures forall s :: s in w && w[s] <= limit ==> s in ord[..i]
  {
    forall k | i <= k < |ord| ensures w[ord[k]] > limit {
      assert WeightKey(w)(ord[i]) <= WeightKey(w)(ord[k]);
    }
    forall s | s in w && w[s] <= limit ensures s in ord[..i] {
      var k :| 0 <= k < |ord| && ord[k] == s;
      assert k < i;
      assert ord[..i][k] == s;
    }
  }

  /** Every simplex before position `i` is stored with weight at most `limit`. */
  lemma PrefixIsLight(w: map<Simplex, real>, ord: seq<Simplex>, i: nat, limit: real)
    requires Enumerates(ord, w.Keys) && i <= |ord|
    requires forall k :: 0 <= k < i ==> w[ord[k]] <= limit
    ensures forall s :: s in ord[..i] ==> s in w && w[s] <= limit
  {
    forall s | s in ord[..i] ensures s in w && w[s] <= limit {
      var k :| 0 <= k < i && ord[k] == s;
    }
  }

  /** A facet of `s` is stored exactly when it is in the set one dimension below `s`. */
  lemma FacetsLiveBelow(m: map<int, set<Simplex>>, s: Simplex)
    requires ByDimension(m)
    ensures forall f :: f in s.Facets() ==> (f in Flatten(m) <==> f in Bucket(m, s.Dim() - 1))
  {
    FacetCount(s);
    BucketIsDimensionSlice(m, s.Dim() - 1);
  }

  /** The vertices of the edges in `es` that contain `v`. */
  ghost function Around(es: set<Simplex>, v: nat): set<nat> {
    set e, u | e in es && v in e.vertices && u in e.vertices :: u
  }

  lemma AroundStep(es: set<Simplex>, e: Simplex, v: nat, acc: set<nat>)
    requires acc == Around(es, v)
    ensures v in e.vertices ==> acc + e.vertices == Around(es + {e}, v)
    ensures v !in e.vertices ==> acc == Around(es + {e}, v)
  {
  }

  /** The neighbours of `v` are the other ends of the dimension-1 simplices through it. */
  lemma NeighboursFromEdges(m: map<int, set<Simplex>>, v: nat)
    requires ByDimension(m)
    ensures 1 in m ==> forall u :: u in Around(m[1], v) - {v} <==> u != v && Simplex({u, v}) in Flatten(m)
    ensures 1 !in m ==> forall u :: !(u != v && Simplex({u, v}) in Flatten(m))
  {
    forall u | u != v ensures Simplex({u, v}) in Flatten(m) <==> 1 in m && Simplex({u, v}) in m[1] {
      PairCard(u, v);
      MemberIsInOwnBucket(m, Simplex({u, v}));
    }
    if 1 in m {
      forall u | u in Around(m[1], v) - {v} ensures Simplex({u, v}) in m[1] {
        var e :| e in m[1] && v in e.vertices && u in e.vertices;
        EdgeIsPair(e, u, v);
      }
      forall u | u != v && Simplex({u, v}) in m[1] ensures u in Around(m[1], v) {
        var e := Simplex({u, v});
        assert v in e.vertices && u in e.vertices;
      }
    }
  }

  lemma PairCard(u: nat, v: nat)
    requires u != v
    ensures |{u, v}| == 2
  {
  }

  /** An edge through two distinct vertices is the edge between them. */
  lemma EdgeIsPair(e: Simplex, u: nat, v: nat)
    requires e.Dim() == 1 && u in e.vertices && v in e.vertices && u != v
    ensures e == Simplex({u, v})
  {
    assert e.vertices == {u, v} + (e.vertices - {u, v});
    PairCard(u, v);
  }

  /** Adding a new simplex whose facets are present and no heavier keeps a filtration a filtration. */
  lemma CheckedInsertKeepsFiltration(w: map<Simplex, real>, s: Simplex, x: real)
    requires Filtration(w) && s !in w
    requires s.Dim() >= 1 ==> FacetsFit(w, s, x)
    ensures Filtration(w[s := x])
  {
    var w' := w[s := x];
    forall t, f | t in w' && t.Dim() >= 1 && f in t.Facets() ensures f in w' && w'[f] <= w'[t] {
      if t != s {
        assert f in w;
        assert f != s;
      }
    }
  }

  /** The simplices a cap keeps are closed under facets, so capping a filtration gives a filtration. */
  lemma CapKeepsFiltration(w: map<Simplex, real>, limit: real)
    requires Filtration(w)
    ensures Filtration(Restrict(w, limit))
  {
  }

  /**
   * `get_weight_ordering()[i]` is the weight of `get_simplex_ordering()[i]`:
   * whatever order ties are broken in, both lists are sorted by the same keys.
   */
  lemma OrderingsAligned(w: map<Simplex, real>, ord: seq<Simplex>, vals: seq<real>)
    requires Enumerates(ord, w.Keys) && SortedBy(ord, WeightKey(w))
    requires Ascending(vals)
    requires forall ks :: Enumerates(ks, w.Keys) ==> multiset(vals) == multiset(Along(ks, WeightKey(w)))
    ensures |vals| == |ord|
    ensures forall i :: 0 <= i < |ord| ==> vals[i] == w[ord[i]]
  {
    assert multiset(vals) == multiset(Along(ord, WeightKey(w)));
    SortedKeysAligned(ord, vals, WeightKey(w));
  }

  /** The weights of the subsets of `vs`: the empty simplex at -1, any other at its number of vertices. */
  function SizeWeights(vs: set<nat>): (w: map<Simplex, real>)
    ensures forall s :: s in w <==> s.vertices <= vs
  {
    map f | f <= vs :: Simplex(f) := if f == {} then -1.0 else |f| as real
  }

  /** The complex of all subsets of a vertex set, weighted by size, is a filtration. */
  lemma SizeWeightsAreFiltration(vs: set<nat>)
    ensures Filtration(SizeWeights(vs))
  {
    var w := SizeWeights(vs);
    forall s, f | s in w && s.Dim() >= 1 && f in s.Facets() ensures f in w && w[f] <= w[s] {
      FacetCount(s);
      assert f.vertices <= s.vertices;
    }
  }

  /**
   * The speed test inserts the subsets level by level: once every subset of
   * `vs` with fewer vertices than `s` is stored at its size weight, the
   * checked insert of `s` at its own size weight finds every facet, none heavier.
   */
  lemma {:induction false} SizeOrderInsertPasses(vs: set<nat>, w: map<Simplex, real>, s: Simplex)
    requires s.vertices <= vs
    requires forall f: Simplex :: f.vertices <= vs && |f.vertices| < |s.vertices| ==> f in w && w[f] == SizeWeights(vs)[f]
    ensures FacetsFit(w, s, SizeWeights(vs)[s])
  {
    forall f | f in s.Facets() ensures f in w && w[f] <= SizeWeights(vs)[s] {
      FacetIffSubsetOneSmaller(f, s);
    }
  }
}
