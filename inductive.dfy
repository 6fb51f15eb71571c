/**
 * Complexes/VR/Expansion/Inductive.py: the inductive Vietoris-Rips
 * expansion. Level by level from 2 to `dim`, every (k-1)-simplex is extended
 * by each vertex below all of its vertices and joined to each of them; the
 * new simplices enter with weight 0 and `compute_weights` then gives each the
 * weight of its heaviest facet. From a 1-skeleton this builds exactly the
 * cliques of its edge graph up to dimension `dim`.
 */
module InductiveExpansion {
  import opened Wrappers
  import opened Simplices
  import opened FilteredComplexes
  import opened Cliques
  import opened FacetWeights
  import opened VRBase
  import opened SkeletonBruteForce
  import Extrema

  /** `w` with every simplex of `D` added or reset to weight `x`. */
  ghost function Override(w: map<Simplex, real>, D: set<Simplex>, x: real): (r: map<Simplex, real>)
    ensures r.Keys == w.Keys + D
    ensures forall s :: s in r ==> r[s] == if s in D then x else w[s]
  {
    map s | s in w.Keys + D :: if s in D then x else w[s]
  }

  /** `simplex + neighbour` for every `neighbour` in `N`. */
  ghost function PlusEach(t: Simplex, N: set<nat>): set<Simplex> {
    set n | n in N :: t.Plus(n)
  }

  /** The cofaces the expansion adds above the simplices of `D`: each extended by a common lower neighbour. */
  ghost function Cofaces(w: map<Simplex, real>, D: set<Simplex>): set<Simplex> {
    set t, n | t in D && n in CommonLower(w, t) :: t.Plus(n)
  }

  /** The stored simplices of dimension `p`. */
  ghost function Level(w: map<Simplex, real>, p: int): set<Simplex> {
    set s | s in w && s.Dim() == p
  }

  /** Level `k` of the expansion: the cofaces of the (k-1)-simplices enter with weight 0. */
  ghost function NextLevel(w: map<Simplex, real>, k: int): map<Simplex, real> {
    Override(w, Cofaces(w, Level(w, k - 1)), 0.0)
  }

  /** The weights after the levels 2 to `k` of `compute_expansion`, before `compute_weights`. */
  ghost function Expanded(w: map<Simplex, real>, k: int): map<Simplex, real>
    decreases k
  {
    if k < 2 then w else NextLevel(Expanded(w, k - 1), k)
  }

  /**
   * The `common_lower_neighbours` loop: `None` until the first vertex, then
   * the lower neighbours of the vertices seen so far, intersected.
   */
  method CommonLowerNeighbours(c: FilteredComplex, t: Simplex) returns (r: Option<set<nat>>)
    requires c.Valid()
    ensures t.vertices == {} ==> r == None
    ensures t.vertices != {} ==> r == Some(CommonLower(c.weights, t))
  {
    r := None;
    var todo := t.vertices;
    ghost var done: set<nat> := {};
    while todo != {}
      invariant todo <= t.vertices && done == t.vertices - todo
      invariant r.None? <==> done == {}
      invariant r.Some? ==> r.value == CommonLower(c.weights, Simplex(done))
      decreases |todo|
    {
      var v := Extrema.Choose(todo);
      r := IntersectLower(c, r, done, v);
      done := done + {v};
      todo := todo - {v};
    }
    Extrema.Exhausted(t.vertices, todo, done);
    assert Simplex(done) == t;
  }

  /** The body of that loop for one vertex `v`. */
  method IntersectLower(c: FilteredComplex, r: Option<set<nat>>, ghost done: set<nat>, v: nat) returns (r': Option<set<nat>>)
    requires c.Valid()
    requires r.None? <==> done == {}
    requires r.Some? ==> r.value == CommonLower(c.weights, Simplex(done))
    ensures r'.Some? && r'.value == CommonLower(c.weights, Simplex(done + {v}))
  {
    var lower := LowerNeighbours(c, v);
    CommonLowerStep(c.weights, done, v);
    if r.None? {
      r' := Some(lower);
    } else {
      r' := Some(r.value * lower);
    }
  }

  /** Adding a vertex intersects the common lower neighbours with its own. */
  lemma CommonLowerStep(w: map<Simplex, real>, done: set<nat>, v: nat)
    ensures done == {} ==> CommonLower(w, Simplex(done + {v})) == LowerNbrs(w, v)
    ensures done != {} ==> CommonLower(w, Simplex(done + {v})) == CommonLower(w, Simplex(done)) * LowerNbrs(w, v)
  {
  }

  /** `for neighbour in common: add_simplex(simplex + neighbour, 0)` on an unchecked complex. */
  method AddCofaces(c: FilteredComplex, t: Simplex, N: set<nat>)
    requires c.Valid() && !c.checkValid
    modifies c
    ensures c.Valid()
    ensures c.weights == Override(old(c.weights), PlusEach(t, N), 0.0)
  {
    ghost var w0 := c.weights;
    var todo := N;
    ghost var done: set<nat> := {};
    while todo != {}
      invariant todo <= N && done == N - todo
      invariant c.Valid() && !c.checkValid
      invariant c.weights == Override(w0, PlusEach(t, done), 0.0)
      decreases |todo|
    {
      var n := Extrema.Choose(todo);
      var _ := c.AddSimplex(t.Plus(n), 0.0);
      AddCofaceStep(w0, t, done, n);
      done := done + {n};
      todo := todo - {n};
    }
    Extrema.Exhausted(N, todo, done);
  }

  lemma AddCofaceStep(w: map<Simplex, real>, t: Simplex, done: set<nat>, n: nat)
    ensures Override(w, PlusEach(t, done), 0.0)[t.Plus(n) := 0.0] == Override(w, PlusEach(t, done + {n}), 0.0)
  {
    OverrideStep(w, PlusEach(t, done), t.Plus(n), 0.0);
    assert PlusEach(t, done + {n}) == PlusEach(t, done) + {t.Plus(n)};
  }

  lemma OverrideStep(w: map<Simplex, real>, D: set<Simplex>, s: Simplex, x: real)
    ensures Override(w, D, x)[s := x] == Override(w, D + {s}, x)
  {
  }

  lemma OverrideUnion(w: map<Simplex, real>, A: set<Simplex>, B: set<Simplex>, x: real)
    ensures Override(Override(w, A, x), B, x) == Override(w, A + B, x)
  {
  }

  /** Cofaces of (k-1)-simplices have dimension k. */
  lemma CofacesDim(w: map<Simplex, real>, D: set<Simplex>, k: int)
    requires forall t :: t in D ==> t.Dim() == k - 1
    ensures forall s :: s in Cofaces(w, D) ==> s.Dim() == k
  {
    forall s | s in Cofaces(w, D) ensures s.Dim() == k {
      var t, n :| t in D && n in CommonLower(w, t) && s == t.Plus(n);
      assert n !in t.vertices;
    }
  }

  /** Adding simplices of dimension at least 2 leaves the edge graph as it was. */
  lemma HigherOverrideSameEdges(w: map<Simplex, real>, D: set<Simplex>, x: real)
    requires forall s :: s in D ==> s.Dim() >= 2
    ensures SameEdges(Override(w, D, x), w)
    ensures forall s :: s in w && s.Dim() <= 1 ==> Override(w, D, x)[s] == w[s]
  {
  }

  /**
   * The body of the level loop for one (k-1)-simplex `t`: its common lower
   * neighbours, read from the edges, which the level does not change, and
   * its cofaces added with weight 0.
   */
  method ExpandSimplex(c: FilteredComplex, t: Simplex, k: int, ghost w0: map<Simplex, real>, ghost done: set<Simplex>)
    requires c.Valid() && !c.checkValid && k >= 2 && t.Dim() == k - 1
    requires forall d :: d in done ==> d.Dim() == k - 1
    requires c.weights == Override(w0, Cofaces(w0, done), 0.0)
    modifies c
    ensures c.Valid()
    ensures c.weights == Override(w0, Cofaces(w0, done + {t}), 0.0)
  {
    CofacesDim(w0, done, k);
    HigherOverrideSameEdges(w0, Cofaces(w0, done), 0.0);
    SameEdgesSameNeighbours(c.weights, w0);
    var common := CommonLowerNeighbours(c, t);
    AddCofaces(c, t, common.value);
    OverrideUnion(w0, Cofaces(w0, done), PlusEach(t, CommonLower(w0, t)), 0.0);
    CofacesStep(w0, done, t);
  }

  lemma CofacesStep(w: map<Simplex, real>, D: set<Simplex>, t: Simplex)
    ensures Cofaces(w, D + {t}) == Cofaces(w, D) + PlusEach(t, CommonLower(w, t))
  {
  }

  /**
   * One level of `compute_expansion`: every stored (k-1)-simplex is extended
   * by each of its common lower neighbours, the new k-simplices weighing 0.
   */
  method ExpandLevel(c: FilteredComplex, k: int)
    requires c.Valid() && !c.checkValid && k >= 2
    modifies c
    ensures c.Valid()
    ensures c.weights == NextLevel(old(c.weights), k)
  {
    var level := c.PSimplices(k - 1);
    LevelIs(level, c.Stored(), c.weights, k - 1);
    ExpandEach(c, level, k);
  }

  /** The loop of one level over the (k-1)-simplices `level`. */
  method ExpandEach(c: FilteredComplex, level: set<Simplex>, k: int)
    requires c.Valid() && !c.checkValid && k >= 2
    requires forall t :: t in level ==> t.Dim() == k - 1
    modifies c
    ensures c.Valid()
    ensures c.weights == Override(old(c.weights), Cofaces(old(c.weights), level), 0.0)
  {
    ghost var w0 := c.weights;
    var todo := level;
    ghost var done: set<Simplex> := {};
    while todo != {}
      invariant todo <= level && done == level - todo
      invariant c.Valid() && !c.checkValid
      invariant c.weights == Override(w0, Cofaces(w0, done), 0.0)
      decreases |todo|
    {
      var t := Extrema.Choose(todo);
      ExpandSimplex(c, t, k, w0, done);
      done := done + {t};
      todo := todo - {t};
    }
    Extrema.Exhausted(level, todo, done);
  }

  lemma LevelIs(r: set<Simplex>, stored: set<Simplex>, w: map<Simplex, real>, p: int)
    requires stored == w.Keys && forall s :: s in r <==> s in stored && s.Dim() == p
    ensures r == Level(w, p)
  {
  }

  /** The level loop of `compute_expansion`, for `k` from 2 to `dim`. */
  method ExpandLevels(c: FilteredComplex, dim: int)
    requires c.Valid() && !c.checkValid
    modifies c
    ensures c.Valid()
    ensures c.weights == Expanded(old(c.weights), dim)
  {
    ghost var w0 := c.weights;
    var k := 2;
    while k <= dim
      invariant 2 <= k <= if dim >= 2 then dim + 1 else 2
      invariant c.Valid() && !c.checkValid
      invariant c.weights == Expanded(w0, k - 1)
      decreases dim - k
    {
      ExpandLevel(c, k);
      assert c.weights == Expanded(w0, k);
      k := k + 1;
    }
    if dim < 2 {
      ExpandedBelowTwo(w0, k - 1);
      ExpandedBelowTwo(w0, dim);
    } else {
      assert k - 1 == dim;
    }
  }

  lemma ExpandedBelowTwo(w: map<Simplex, real>, k: int)
    requires k < 2
    ensures Expanded(w, k) == w
  {
  }

  /**
   * `compute_expansion(dim)`: the levels 2 to `dim` and then
   * `compute_weights`. Without a complex the source fails on the attribute
   * lookup; otherwise the errors are those of `compute_weights`.
   */
  method ComputeExpansion(b: VRBuilder, dim: int) returns (res: Outcome<VRError>)
    requires b.Valid()
    modifies b.complex
    ensures b.Valid()
    ensures old(b.complex) == null ==> res == Fail(NoComplex)
    ensures old(b.complex) != null ==>
      var w := Expanded(old(b.complex.weights), dim);
      (res.Fail? ==> res.error.ComplexFailure? && (res.error.error == NoSimplices || res.error.error == NotInComplex)) &&
      (res == Fail(ComplexFailure(NoSimplices)) <==> w == map[]) &&
      (res == Fail(ComplexFailure(NotInComplex)) <==> w != map[] && !FacetsComplete(w)) &&
      (res.Pass? ==> SameLowWeights(b.complex.weights, w) && MaxOfFacets(b.complex.weights))
  {
    var c := b.complex;
    if c == null {
      return Fail(NoComplex);
    }
    ExpandLevels(c, dim);
    var r := ReweightByFacets(c);
    if r.Fail? {
      return Fail(ComplexFailure(r.error));
    }
    return Pass;
  }

  /**
   * The expansion keeps every simplex, keeps the vertices and edges with
   * their weights, and adds only simplices of dimension 2 to `k`.
   */
  lemma {:induction false} ExpansionAddsOnlyHigher(w: map<Simplex, real>, k: int)
    ensures w.Keys <= Expanded(w, k).Keys
    ensures forall s :: s in w && s.Dim() <= 1 ==> Expanded(w, k)[s] == w[s]
    ensures forall s :: s in Expanded(w, k) && s !in w ==> 2 <= s.Dim() <= k
    ensures SameEdges(Expanded(w, k), w)
    decreases k
  {
    if k >= 2 {
      var e := Expanded(w, k - 1);
      ExpansionAddsOnlyHigher(w, k - 1);
      forall t | t in Level(e, k - 1) ensures t.Dim() == k - 1 {}
      CofacesDim(e, Level(e, k - 1), k);
      HigherOverrideSameEdges(e, Cofaces(e, Level(e, k - 1)), 0.0);
    }
  }

  /**
   * From a complex of vertices and edges, the expansion to `k` holds, in
   * each dimension from 2 to `k`, exactly the cliques of the edge graph:
   * the Vietoris-Rips complex of the skeleton.
   */
  lemma {:induction false} ExpansionIsCliqueComplex(w: map<Simplex, real>, k: int)
    requires forall s :: s in w ==> s.Dim() <= 1
    ensures forall s: Simplex :: s.Dim() >= 2 ==> (s in Expanded(w, k) <==> s.Dim() <= k && IsClique(w, s.vertices))
    decreases k
  {
    if k >= 2 {
      ExpansionIsCliqueComplex(w, k - 1);
      var e := Expanded(w, k - 1);
      ExpansionAddsOnlyHigher(w, k - 1);
      SameEdgesSameNeighbours(e, w);
      forall s: Simplex | s.Dim() >= 2 ensures s in Expanded(w, k) <==> s.Dim() <= k && IsClique(w, s.vertices) {
        if s in Cofaces(e, Level(e, k - 1)) {
          CofaceInExpansion(w, e, k, s);
        }
        if s.Dim() == k && IsClique(w, s.vertices) {
          CliqueIsCoface(w, e, k, s);
        }
        if s in Expanded(w, k) && s !in Cofaces(e, Level(e, k - 1)) {
          assert s in e;
        }
      }
    }
  }

  /** A coface added at level `k` is a k-clique of the skeleton's edge graph. */
  lemma CofaceInExpansion(w: map<Simplex, real>, e: map<Simplex, real>, k: int, s: Simplex)
    requires k >= 2 && forall s :: s in w ==> s.Dim() <= 1
    requires SameEdges(e, w) && forall s :: s in w && s.Dim() <= 1 ==> s in e
    requires forall s :: s in e && s !in w ==> 2 <= s.Dim()
    requires forall s: Simplex :: s.Dim() >= 2 ==> (s in e <==> s.Dim() <= k - 1 && IsClique(w, s.vertices))
    requires s in Cofaces(e, Level(e, k - 1))
    ensures s.Dim() == k && IsClique(w, s.vertices)
  {
    SameEdgesSameNeighbours(e, w);
    var t, n :| t in Level(e, k - 1) && n in CommonLower(e, t) && s == t.Plus(n);
    assert IsClique(e, t.vertices) by {
      if k - 1 >= 2 {
        assert IsClique(w, t.vertices);
      } else {
        EdgeIsClique(e, t);
      }
    }
    CofaceIsClique(e, t, n);
  }

  /** A k-clique of the skeleton's edge graph is added at level `k`. */
  lemma CliqueIsCoface(w: map<Simplex, real>, e: map<Simplex, real>, k: int, s: Simplex)
    requires k >= 2 && forall s :: s in w ==> s.Dim() <= 1
    requires SameEdges(e, w) && forall s :: s in w && s.Dim() <= 1 ==> s in e
    requires forall s: Simplex :: s.Dim() >= 2 ==> (s in e <==> s.Dim() <= k - 1 && IsClique(w, s.vertices))
    requires s.Dim() == k && IsClique(w, s.vertices)
    ensures s in Cofaces(e, Level(e, k - 1))
  {
    SameEdgesSameNeighbours(e, w);
    CliqueSplits(e, s);
    var n := Lowest(s);
    var t := Simplex(s.vertices - {n});
    assert t in e by {
      if k - 1 == 1 {
        PairCliqueIsEdge(w, t);
      }
    }
    assert t in Level(e, k - 1);
    assert s == t.Plus(n);
  }

  /**
   * On a skeleton whose edges have their vertices stored, every simplex the
   * expansion adds has its facets stored, so `compute_weights` cannot fail
   * on a missing facet.
   */
  lemma ExpansionFacetsComplete(w: map<Simplex, real>, k: int)
    requires forall s :: s in w ==> s.Dim() <= 1
    requires Filtration(w)
    ensures FacetsComplete(Expanded(w, k))
  {
    var x := Expanded(w, k);
    ExpansionIsCliqueComplex(w, k);
    ExpansionAddsOnlyHigher(w, k);
    forall s, f | s in x && s.Dim() >= 2 && f in s.Facets() ensures f in x {
      FacetCount(s);
      assert IsClique(w, f.vertices);
      if f.Dim() == 1 {
        PairCliqueIsEdge(w, f);
      }
    }
  }

  /**
   * After `compute_weights`, an expansion of a filtration is a filtration:
   * edges keep their weights, and each higher simplex weighs as much as its
   * heaviest facet.
   */
  lemma ExpansionIsFiltration(w0: map<Simplex, real>, w: map<Simplex, real>, k: int)
    requires Filtration(w0)
    requires SameLowWeights(w, Expanded(w0, k)) && MaxOfFacets(w)
    ensures Filtration(w)
  {
    ExpansionAddsOnlyHigher(w0, k);
    forall e | e in w && e.Dim() == 1 ensures FacetsFit(w, e, w[e]) {
      FacetCount(e);
      assert e in w0;
    }
    FacetMaxIsFiltration(w);
  }

  /** The expansion of an empty complex is empty, and only of an empty one. */
  lemma {:induction false} ExpandedEmpty(w: map<Simplex, real>, k: int)
    ensures Expanded(w, k) == map[] <==> w == map[]
    decreases k
  {
    ExpansionAddsOnlyHigher(w, k);
    if k >= 2 && w == map[] {
      ExpandedEmpty(w, k - 1);
      assert Level(map[], k - 1) == {};
      assert Cofaces(map[], {}) == {};
    }
  }

  /** A skeleton is empty exactly when there are no points. */
  lemma SkeletonEmpty(w: map<Simplex, real>, n: nat, metric: (nat, nat) -> real, eps: real)
    requires IsSkeleton(w, n, metric, eps)
    ensures w == map[] <==> n == 0
  {
    if n > 0 {
      assert Simplex({0}) in w;
    }
  }

  /**
   * On the skeleton of at least one point, under a non-negative metric,
   * `compute_expansion` never fails: the complex is not empty and every
   * facet of an added simplex is stored.
   */
  lemma SkeletonExpansionSucceeds(w0: map<Simplex, real>, n: nat, metric: (nat, nat) -> real, eps: real, dim: int)
    requires IsSkeleton(w0, n, metric, eps) && forall i, j :: metric(i, j) >= 0.0
    ensures Expanded(w0, dim) == map[] <==> n == 0
    ensures FacetsComplete(Expanded(w0, dim))
  {
    SkeletonEmpty(w0, n, metric, eps);
    ExpandedEmpty(w0, dim);
    SkeletonShape(w0, n, metric, eps);
    SkeletonIsFiltration(w0, n, metric, eps);
    ExpansionFacetsComplete(w0, dim);
  }

  /**
   * The skeleton followed by the inductive expansion to `dim` gives the
   * Vietoris-Rips filtration: the vertices and short edges with their
   * weights, every clique of the edge graph from dimension 2 to `dim` and
   * nothing else, each weighing as much as its heaviest facet, and every
   * facet weighing no more than its cofaces.
   */
  lemma InductiveIsVietorisRips(w0: map<Simplex, real>, w: map<Simplex, real>, n: nat, metric: (nat, nat) -> real, eps: real, dim: int)
    requires IsSkeleton(w0, n, metric, eps) && forall i, j :: metric(i, j) >= 0.0
    requires SameLowWeights(w, Expanded(w0, dim)) && MaxOfFacets(w)
    ensures forall s :: s in w && s.Dim() <= 1 <==> s in w0
    ensures forall s :: s in w0 ==> w[s] == w0[s]
    ensures forall s: Simplex :: s.Dim() >= 2 ==> (s in w <==> s.Dim() <= dim && IsClique(w0, s.vertices))
    ensures Filtration(w)
  {
    SkeletonShape(w0, n, metric, eps);
    SkeletonIsFiltration(w0, n, metric, eps);
    ExpansionKeepsSkeleton(w0, w, dim);
    ExpansionIsCliqueComplex(w0, dim);
    ExpansionIsFiltration(w0, w, dim);
  }

  lemma ExpansionKeepsSkeleton(w0: map<Simplex, real>, w: map<Simplex, real>, dim: int)
    requires forall s :: s in w0 ==> s.Dim() <= 1
    requires SameLowWeights(w, Expanded(w0, dim))
    ensures forall s :: s in w && s.Dim() <= 1 <==> s in w0
    ensures forall s :: s in w0 ==> w[s] == w0[s]
  {
    ExpansionAddsOnlyHigher(w0, dim);
  }
}
