/**
 * What the incremental expansion of Complexes/VR/Expansion/Incremental.py
 * builds: from every stored vertex, the cliques of the edge graph whose
 * largest vertex it is, up to the requested dimension. On a skeleton this is
 * the clique complex the inductive expansion builds, and once weighted under
 * a symmetric metric it is the same Vietoris-Rips filtration.
 */
module IncrementalCliques {
  import opened Wrappers
  import opened Simplices
  import opened FilteredComplexes
  import opened VRBase
  import opened Cliques
  import opened FacetWeights
  import opened SkeletonBruteForce
  import opened InductiveExpansion
  import opened IncrementalExpansion
  import Extrema

  /** A non-empty clique of `w`, of dimension at most `level`, whose largest vertex is `v`. */
  ghost predicate TopClique(w: map<Simplex, real>, t: Simplex, level: int, v: nat) {
    t.vertices != {} && IsClique(w, t.vertices) && t.Dim() <= level && Extrema.Max(t.vertices) == v
  }

  /**
   * The search `add_cofaces(level, {v}, lower_neighbours(v))` adds exactly
   * the cliques of dimension at most `level` whose largest vertex is `v`.
   */
  lemma VertexGen(w: map<Simplex, real>, v: nat, level: int, t: Simplex)
    requires level >= 0
    ensures t in Gen(w, Simplex({v}), level) <==> TopClique(w, t, level, v)
  {
    if t in Gen(w, Simplex({v}), level) {
      GenIsTopClique(w, v, level, t);
    }
    if TopClique(w, t, level, v) {
      TopCliqueInGen(w, v, level, t);
    }
  }

  lemma GenIsTopClique(w: map<Simplex, real>, v: nat, level: int, t: Simplex)
    requires level >= 0 && t in Gen(w, Simplex({v}), level)
    ensures TopClique(w, t, level, v)
  {
    var tau := Simplex({v});
    if t == tau {
      assert |{v}| == 1;
    } else {
      var T := GenWitness(w, tau, level, t);
      CommonLowerStep(w, {}, v);
      assert {} + {v} == {v};
      assert v in t.vertices;
      assert forall u :: u in T ==> u in LowerNbrs(w, v);
    }
  }

  lemma TopCliqueInGen(w: map<Simplex, real>, v: nat, level: int, t: Simplex)
    requires TopClique(w, t, level, v)
    ensures t in Gen(w, Simplex({v}), level)
  {
    var tau := Simplex({v});
    var T := t.vertices - {v};
    CommonLowerStep(w, {}, v);
    assert {} + {v} == {v};
    forall u | u in T ensures u in CommonLower(w, tau) {
      assert Simplex({u, v}) in w;
    }
    assert tau.vertices + T == t.vertices;
    InGen(w, tau, level, T);
  }

  /** A simplex of dimension 0 is the simplex of its one vertex. */
  lemma VertexOf(s: Simplex) returns (v: nat)
    requires s.Dim() == 0
    ensures s == Simplex({v}) && Extrema.Max(s.vertices) == v
  {
    assert s.vertices != {};
    v := Extrema.Pick(s.vertices);
    VertexGood(map[], s, v);
  }

  /**
   * For a level of at least 0, the searches from the vertices `V` add the
   * non-empty cliques of dimension at most `level` whose largest vertex is
   * one of `V`.
   */
  lemma AllGenIsCliques(w: map<Simplex, real>, V: set<Simplex>, level: int, t: Simplex)
    requires level >= 0 && forall s :: s in V ==> s.Dim() == 0
    ensures t in AllGen(w, V, level) <==>
      t.vertices != {} && IsClique(w, t.vertices) && t.Dim() <= level && Simplex({Extrema.Max(t.vertices)}) in V
  {
    if t in AllGen(w, V, level) {
      var s :| s in V && t in Gen(w, s, level);
      var v := VertexOf(s);
      GenIsTopClique(w, v, level, t);
    }
    if t.vertices != {} && IsClique(w, t.vertices) && t.Dim() <= level && Simplex({Extrema.Max(t.vertices)}) in V {
      var v := Extrema.Max(t.vertices);
      TopCliqueInGen(w, v, level, t);
    }
  }

  /**
   * Below dimension 1 no search goes past its vertex: `compute_expansion`
   * with `dim <= 0` keeps the vertices and drops every edge.
   */
  lemma AllGenOfVerticesOnly(w: map<Simplex, real>, V: set<Simplex>, level: int)
    requires level <= 0 && forall s :: s in V ==> s.Dim() == 0
    ensures AllGen(w, V, level) == V
  {
    forall s | s in V ensures Gen(w, s, level) == {s} {
      var v := VertexOf(s);
      VertexGood(w, s, v);
      GenAtLevel(w, s, LowerNbrs(w, v), level);
    }
    forall t | t in AllGen(w, V, level) ensures t in V {
      var s :| s in V && t in Gen(w, s, level);
    }
    forall t | t in V ensures t in AllGen(w, V, level) {
      assert t in Gen(w, t, level);
    }
  }

  /** Every vertex of a stored edge of a skeleton is a stored vertex. */
  lemma EdgeEndStored(w0: map<Simplex, real>, n: nat, metric: (nat, nat) -> real, eps: real, u: nat, m: nat)
    requires IsSkeleton(w0, n, metric, eps) && u != m && Simplex({u, m}) in w0
    ensures Simplex({m}) in Level(w0, 0)
  {
    var e := Simplex({u, m});
    PairCard(u, m);
    SkeletonMember(w0, n, metric, eps, e);
    var i, j :| 0 <= i < j < n && e == Simplex({i, j}) && w0[e] == metric(i, j);
    assert m in {i, j};
    assert |{m}| == 1;
  }

  /** The largest vertex of a clique with an edge in a skeleton is a stored vertex. */
  lemma TopVertexStored(w0: map<Simplex, real>, n: nat, metric: (nat, nat) -> real, eps: real, t: Simplex)
    requires IsSkeleton(w0, n, metric, eps) && IsClique(w0, t.vertices) && t.Dim() >= 1
    ensures Simplex({Extrema.Max(t.vertices)}) in Level(w0, 0)
  {
    var m := Extrema.Max(t.vertices);
    assert t.vertices - {m} != {} by {
      assert t.vertices == {m} + (t.vertices - {m});
      assert |{m}| == 1;
    }
    var u := Extrema.Pick(t.vertices - {m});
    EdgeEndStored(w0, n, metric, eps, u, m);
  }

  /** A skeleton stores no empty simplex. */
  lemma SkeletonNonEmpty(w0: map<Simplex, real>, n: nat, metric: (nat, nat) -> real, eps: real, s: Simplex)
    requires IsSkeleton(w0, n, metric, eps) && s in w0
    ensures s.vertices != {}
  {
    if IsPoint(s, n) {
      var i :| 0 <= i < n && s == Simplex({i});
      assert i in s.vertices;
    } else {
      var i, j :| 0 <= i < j < n && s == Simplex({i, j}) && metric(i, j) < eps;
      assert i in s.vertices;
    }
  }

  /**
   * From the skeleton and for `dim >= 1`, the incremental expansion adds
   * exactly the simplices the inductive expansion adds.
   */
  lemma IncrementalIsInductive(w0: map<Simplex, real>, n: nat, metric: (nat, nat) -> real, eps: real, dim: int)
    requires IsSkeleton(w0, n, metric, eps) && dim >= 1
    ensures AllGen(w0, Level(w0, 0), dim) == Expanded(w0, dim).Keys
  {
    var V := Level(w0, 0);
    SkeletonShape(w0, n, metric, eps);
    ExpansionAddsOnlyHigher(w0, dim);
    ExpansionIsCliqueComplex(w0, dim);
    forall t ensures t in AllGen(w0, V, dim) <==> t in Expanded(w0, dim) {
      AllGenIsCliques(w0, V, dim, t);
      if t.vertices == {} {
        if t in w0 {
          SkeletonNonEmpty(w0, n, metric, eps, t);
        }
      } else if t.Dim() == 0 {
        var v := VertexOf(t);
      } else if t.Dim() == 1 {
        if IsClique(w0, t.vertices) {
          PairCliqueIsEdge(w0, t);
          TopVertexStored(w0, n, metric, eps, t);
        }
        if t in w0 {
          EdgeIsClique(w0, t);
        }
      } else if IsClique(w0, t.vertices) {
        TopVertexStored(w0, n, metric, eps, t);
      }
    }
  }

  /**
   * On a skeleton the simplices the searches add have their facets: the
   * weighting step of `compute_expansion` never fails on a missing facet.
   */
  lemma IncrementalFacetsComplete(w0: map<Simplex, real>, n: nat, metric: (nat, nat) -> real, eps: real, dim: int, nw: map<Simplex, real>)
    requires IsSkeleton(w0, n, metric, eps) && nw == Override(map[], AllGen(w0, Level(w0, 0), dim), 0.0)
    ensures FacetsComplete(nw)
  {
    var V := Level(w0, 0);
    if dim <= 0 {
      AllGenOfVerticesOnly(w0, V, dim);
    } else {
      forall s | s in nw && s.Dim() >= 2 ensures FacetsStored(nw, s) {
        forall f | f in s.Facets() ensures f in nw {
          FacetInAllGen(w0, n, metric, eps, dim, s, f);
        }
      }
    }
  }

  lemma FacetInAllGen(w0: map<Simplex, real>, n: nat, metric: (nat, nat) -> real, eps: real, dim: int, s: Simplex, f: Simplex)
    requires IsSkeleton(w0, n, metric, eps) && dim >= 0
    requires s in AllGen(w0, Level(w0, 0), dim) && s.Dim() >= 2 && f in s.Facets()
    ensures f in AllGen(w0, Level(w0, 0), dim)
  {
    var V := Level(w0, 0);
    AllGenIsCliques(w0, V, dim, s);
    FacetCount(s);
    assert f.Dim() == s.Dim() - 1;
    var v :| v in s.vertices && f == Simplex(s.vertices - {v});
    assert f.vertices <= s.vertices;
    assert IsClique(w0, f.vertices);
    TopVertexStored(w0, n, metric, eps, f);
    AllGenIsCliques(w0, V, dim, f);
  }

  /** A vertex of a skeleton weighs 0. */
  lemma SkeletonVertexWeight(w0: map<Simplex, real>, n: nat, metric: (nat, nat) -> real, eps: real, s: Simplex)
    requires IsSkeleton(w0, n, metric, eps) && s in w0 && s.Dim() == 0
    ensures w0[s] == 0.0
  {
    if IsShortEdge(s, n, metric, eps) {
      var i, j :| 0 <= i < j < n && s == Simplex({i, j}) && metric(i, j) < eps;
      PairCard(i, j);
    }
  }

  /** Under a symmetric metric an edge of a skeleton weighs its length. */
  lemma SkeletonEdgeLength(w0: map<Simplex, real>, n: nat, metric: (nat, nat) -> real, eps: real, e: Simplex, x: real)
    requires IsSkeleton(w0, n, metric, eps) && forall i, j :: metric(i, j) == metric(j, i)
    requires e in w0 && e.Dim() == 1 && EdgeLength(e, x, metric)
    ensures w0[e] == x
  {
    SkeletonMember(w0, n, metric, eps, e);
    var i, j :| 0 <= i < j < n && e == Simplex({i, j}) && w0[e] == metric(i, j);
    EdgeEnds(e, i, j);
  }

  /**
   * The skeleton followed by the incremental expansion to `dim >= 1` under a
   * symmetric, non-negative metric: the weighted new complex agrees with the
   * inductive expansion on every vertex and edge and so is the
   * Vietoris-Rips filtration.
   */
  lemma IncrementalIsVietorisRips(w0: map<Simplex, real>, w: map<Simplex, real>, n: nat, metric: (nat, nat) -> real, eps: real, dim: int)
    requires IsSkeleton(w0, n, metric, eps) && dim >= 1
    requires forall i, j :: metric(i, j) >= 0.0 && metric(i, j) == metric(j, i)
    requires WeighedEdges(w, Override(map[], AllGen(w0, Level(w0, 0), dim), 0.0), metric) && MaxOfFacets(w)
    ensures SameLowWeights(w, Expanded(w0, dim))
    ensures forall s :: s in w && s.Dim() <= 1 <==> s in w0
    ensures forall s :: s in w0 ==> w[s] == w0[s]
    ensures forall s: Simplex :: s.Dim() >= 2 ==> (s in w <==> s.Dim() <= dim && IsClique(w0, s.vertices))
    ensures Filtration(w)
  {
    IncrementalLowWeights(w0, w, n, metric, eps, dim);
    InductiveIsVietorisRips(w0, w, n, metric, eps, dim);
  }

  /** The weighted new complex has the simplices of the inductive expansion and the skeleton's weights below dimension 2. */
  lemma IncrementalLowWeights(w0: map<Simplex, real>, w: map<Simplex, real>, n: nat, metric: (nat, nat) -> real, eps: real, dim: int)
    requires IsSkeleton(w0, n, metric, eps) && dim >= 1
    requires forall i, j :: metric(i, j) == metric(j, i)
    requires WeighedEdges(w, Override(map[], AllGen(w0, Level(w0, 0), dim), 0.0), metric)
    ensures SameLowWeights(w, Expanded(w0, dim))
  {
    var nw := Override(map[], AllGen(w0, Level(w0, 0), dim), 0.0);
    NewVertices(w, nw, AllGen(w0, Level(w0, 0), dim), metric);
    IncrementalIsInductive(w0, n, metric, eps, dim);
    ExpansionLow(w0, dim);
    LowWeightsAgree(w0, w, Expanded(w0, dim), n, metric, eps);
  }

  /** After `compute_weights` the new complex has the simplices the searches added, its vertices at weight 0. */
  lemma NewVertices(w: map<Simplex, real>, nw: map<Simplex, real>, G: set<Simplex>, metric: (nat, nat) -> real)
    requires nw == Override(map[], G, 0.0) && WeighedEdges(w, nw, metric)
    ensures w.Keys == G
    ensures forall s :: s in w && s.Dim() <= 0 ==> w[s] == 0.0
  {
    assert nw.Keys == G;
  }

  /** Below dimension 2 the inductive expansion holds what the skeleton holds. */
  lemma ExpansionLow(w0: map<Simplex, real>, dim: int)
    ensures forall s :: s in Expanded(w0, dim) && s.Dim() <= 1 ==> s in w0 && Expanded(w0, dim)[s] == w0[s]
  {
    ExpansionAddsOnlyHigher(w0, dim);
  }

  lemma LowWeightsAgree(w0: map<Simplex, real>, w: map<Simplex, real>, x: map<Simplex, real>, n: nat, metric: (nat, nat) -> real, eps: real)
    requires IsSkeleton(w0, n, metric, eps) && forall i, j :: metric(i, j) == metric(j, i)
    requires w.Keys == x.Keys
    requires forall s :: s in x && s.Dim() <= 1 ==> s in w0 && x[s] == w0[s]
    requires forall s :: s in w && s.Dim() <= 0 ==> w[s] == 0.0
    requires forall e :: e in w && e.Dim() == 1 ==> EdgeLength(e, w[e], metric)
    ensures SameLowWeights(w, x)
  {
    forall s | s in w && s.Dim() <= 1 ensures w[s] == x[s] {
      LowWeight(w0, n, metric, eps, s, w[s]);
    }
  }

  /** The weight the new complex gives a vertex or edge of a skeleton is the skeleton's. */
  lemma LowWeight(w0: map<Simplex, real>, n: nat, metric: (nat, nat) -> real, eps: real, s: Simplex, x: real)
    requires IsSkeleton(w0, n, metric, eps) && forall i, j :: metric(i, j) == metric(j, i)
    requires s in w0 && s.Dim() <= 1
    requires s.Dim() <= 0 ==> x == 0.0
    requires s.Dim() == 1 ==> s.vertices != {} && EdgeLength(s, x, metric)
    ensures x == w0[s]
  {
    if s.Dim() == 0 {
      SkeletonVertexWeight(w0, n, metric, eps, s);
    } else if s.Dim() == 1 {
      SkeletonEdgeLength(w0, n, metric, eps, s, x);
    } else {
      SkeletonNonEmpty(w0, n, metric, eps, s);
    }
  }

  /**
   * On the same skeleton, for `dim >= 1` and a symmetric metric, the
   * incremental and the inductive `compute_expansion` leave the same
   * weighted complex.
   */
  lemma StrategiesAgree(w0: map<Simplex, real>, wInc: map<Simplex, real>, wInd: map<Simplex, real>,
                        n: nat, metric: (nat, nat) -> real, eps: real, dim: int)
    requires IsSkeleton(w0, n, metric, eps) && dim >= 1
    requires forall i, j :: metric(i, j) == metric(j, i)
    requires WeighedEdges(wInc, Override(map[], AllGen(w0, Level(w0, 0), dim), 0.0), metric) && MaxOfFacets(wInc)
    requires SameLowWeights(wInd, Expanded(w0, dim)) && MaxOfFacets(wInd)
    ensures wInc == wInd
  {
    IncrementalLowWeights(w0, wInc, n, metric, eps, dim);
    FacetMaxDetermined(wInc, wInd);
  }

  /** The vertices and edges of a complex, with their weights. */
  ghost function LowPart(w: map<Simplex, real>): (r: map<Simplex, real>)
    ensures forall s :: s in r <==> s in w && s.Dim() <= 1
    ensures forall s :: s in r ==> r[s] == w[s]
  {
    map s | s in w && s.Dim() <= 1 :: w[s]
  }

  /**
   * The Vietoris-Rips filtration of the first `n` points up to dimension
   * `dim`: its vertices and edges are the skeleton, its higher simplices the
   * cliques of its edge graph up to `dim`, each at its heaviest facet.
   */
  ghost predicate VietorisRips(w: map<Simplex, real>, n: nat, metric: (nat, nat) -> real, eps: real, dim: int) {
    IsSkeleton(LowPart(w), n, metric, eps) &&
    (forall s: Simplex :: s.Dim() >= 2 ==> (s in w <==> s.Dim() <= dim && IsClique(w, s.vertices))) &&
    MaxOfFacets(w) && Filtration(w)
  }

  /**
   * `compute_skeleton()` and then `compute_expansion(dim)` on a fresh
   * incremental builder, for `dim >= 1` and a symmetric, non-negative
   * metric: the expansion succeeds and the builder's complex is the
   * Vietoris-Rips filtration.
   */
  method SkeletonThenExpansion(b: VRBuilder, dim: int) returns (res: Outcome<VRError>)
    requires b.Valid() && b.newComplex.weights == map[] && dim >= 1
    requires forall i, j :: b.metric(i, j) >= 0.0 && b.metric(i, j) == b.metric(j, i)
    modifies b, b.newComplex
    ensures res == Pass && b.complex != null
    ensures VietorisRips(b.complex.weights, b.n, b.metric, b.epsilon, dim)
  {
    ComputeSkeleton(b);
    ghost var w0 := b.complex.weights;
    ghost var empty := b.complex.PSimplexCount(0) == 0;
    SkeletonVertices(w0, b.complex.PSimplices(0), b.n, b.metric, b.epsilon);
    res := IncrementalExpansion.ComputeExpansion(b, dim);
    if empty {
      EmptyIsVietorisRips(w0, b.n, b.metric, b.epsilon, dim);
    } else {
      IncrementalFacetsComplete(w0, b.n, b.metric, b.epsilon, dim, Override(map[], AllGen(w0, Level(w0, 0), dim), 0.0));
      IncrementalGivesVietorisRips(w0, b.complex.weights, b.n, b.metric, b.epsilon, dim);
    }
  }

  /** A skeleton has a vertex exactly when there is a point. */
  lemma SkeletonVertices(w0: map<Simplex, real>, V: set<Simplex>, n: nat, metric: (nat, nat) -> real, eps: real)
    requires IsSkeleton(w0, n, metric, eps) && forall s :: s in V <==> s in w0 && s.Dim() == 0
    ensures V == {} <==> n == 0
    ensures V == Level(w0, 0)
    ensures n == 0 ==> w0 == map[]
  {
    if n > 0 {
      assert |{0}| == 1;
      assert Simplex({0}) in V;
    }
    InductiveExpansion.SkeletonEmpty(w0, n, metric, eps);
  }

  /** Without points the skeleton and its expansion are empty, which is the filtration of no points. */
  lemma EmptyIsVietorisRips(w0: map<Simplex, real>, n: nat, metric: (nat, nat) -> real, eps: real, dim: int)
    requires IsSkeleton(w0, n, metric, eps) && w0 == map[]
    ensures VietorisRips(w0, n, metric, eps, dim)
  {
    assert LowPart(w0) == w0;
    forall s: Simplex | s.Dim() >= 2 ensures !IsClique(w0, s.vertices) {
      var u := Extrema.Pick(s.vertices);
      assert s.vertices == {u} + (s.vertices - {u});
      var v := Extrema.Pick(s.vertices - {u});
      assert Simplex({u, v}) !in w0;
    }
  }

  /** The weighted result of the incremental expansion of a skeleton is the Vietoris-Rips filtration. */
  lemma IncrementalGivesVietorisRips(w0: map<Simplex, real>, w: map<Simplex, real>, n: nat, metric: (nat, nat) -> real, eps: real, dim: int)
    requires IsSkeleton(w0, n, metric, eps) && dim >= 1
    requires forall i, j :: metric(i, j) >= 0.0 && metric(i, j) == metric(j, i)
    requires WeighedEdges(w, Override(map[], AllGen(w0, Level(w0, 0), dim), 0.0), metric) && MaxOfFacets(w)
    ensures VietorisRips(w, n, metric, eps, dim)
  {
    IncrementalIsVietorisRips(w0, w, n, metric, eps, dim);
    KeepsSkeleton(w0, w);
    assert IsSkeleton(LowPart(w), n, metric, eps);
  }

  /** A complex that holds the vertices and edges of `w0` and no others, at their weights, has `w0` as its low part and its edge graph. */
  lemma KeepsSkeleton(w0: map<Simplex, real>, w: map<Simplex, real>)
    requires forall s :: s in w && s.Dim() <= 1 <==> s in w0
    requires forall s :: s in w0 ==> w[s] == w0[s]
    ensures LowPart(w) == w0
    ensures forall vs :: IsClique(w, vs) <==> IsClique(w0, vs)
  {
    assert SameEdges(w, w0) by {
      forall s: Simplex | s.Dim() == 1 ensures s in w <==> s in w0 {
      }
    }
    SameEdgesSameNeighbours(w, w0);
  }
}
