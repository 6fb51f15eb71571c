/**
 * What the brute-force expansion builds. A level adds exactly the
 * k-simplices whose facets are all stored, so from the skeleton of a
 * non-negative metric it builds the Vietoris-Rips filtration, the same
 * weighted complex as the inductive strategy, and its early exit never cuts
 * the expansion short.
 */
module BruteForceCliques {
  import opened Wrappers
  import opened Simplices
  import opened FilteredComplexes
  import opened FacetWeights
  import opened VRBase
  import opened Cliques
  import opened SkeletonBruteForce
  import opened InductiveExpansion
  import opened BruteForceExpansion
  import opened IncrementalCliques
  import Extrema

  /** Two distinct facets of a simplex of dimension at least 2 share a vertex. */
  lemma TwoFacetsMeet(s: Simplex, x: Simplex, y: Simplex)
    requires s.Dim() >= 2 && x in s.Facets() && y in s.Facets()
    ensures x.Intersect(y).Dim() != -1
  {
    var a :| a in s.vertices && x.vertices == s.vertices - {a};
    var b :| b in s.vertices && y.vertices == s.vertices - {b};
    assert |{a, b}| <= 2;
    if s.vertices - {a, b} == {} {
      SubsetCard(s.vertices, {a, b});
    }
    var c := Extrema.Pick(s.vertices - {a, b});
    assert c in x.Intersect(y).vertices;
  }

  /** The facets of a simplex of dimension at least 2 pass the pair test. */
  lemma FacetsMeet(s: Simplex)
    requires s.Dim() >= 2
    ensures PairwiseMeet(s.Facets())
  {
    forall x, y | x in s.Facets() && y in s.Facets() && x != y ensures x.Intersect(y).Dim() != -1 {
      TwoFacetsMeet(s, x, y);
    }
  }

  /** A vertex of a simplex with at least two vertices lies in one of its facets. */
  lemma VertexInFacet(s: Simplex, v: nat) returns (f: Simplex)
    requires s.Dim() >= 1 && v in s.vertices
    ensures f in s.Facets() && v in f.vertices
  {
    assert |s.vertices - {v}| == |s.vertices| - 1;
    var a := Extrema.Pick(s.vertices - {v});
    f := Simplex(s.vertices - {a});
    assert IsFacetOf(f, s);
  }

  lemma FacetsWithin(s: Simplex)
    ensures forall x :: x in s.Facets() ==> x.vertices <= s.vertices
  {
    forall x | x in s.Facets() ensures x.vertices <= s.vertices {
      FacetIffSubsetOneSmaller(x, s);
    }
  }

  /** The union of simplices inside `S` is inside `S`. */
  lemma UnionWithin(E: set<Simplex>, S: set<nat>)
    requires forall x :: x in E ==> x.vertices <= S
    ensures UnionOf(E).vertices <= S
  {
  }

  /** The union of the facets of a simplex with at least two vertices is the simplex. */
  lemma UnionOfFacets(s: Simplex)
    requires s.Dim() >= 1
    ensures UnionOf(s.Facets()) == s
  {
    var u := UnionOf(s.Facets());
    FacetsWithin(s);
    UnionWithin(s.Facets(), s.vertices);
    forall v | v in s.vertices ensures v in u.vertices {
      var f := VertexInFacet(s, v);
    }
    BothWays(u.vertices, s.vertices);
  }

  /**
   * From dimension 2 on, a level adds exactly the k-simplices whose facets
   * are all stored: the pair test never rejects the facets of a simplex, and
   * any accepted choice is the set of facets of its union.
   */
  lemma AddedIff(w: map<Simplex, real>, k: int, s: Simplex)
    requires k >= 2
    ensures s in Added(w, k) <==> s.Dim() == k && FacetsStored(w, s)
  {
    if s in Added(w, k) {
      var E := AddedWitness(w, k, s);
      ChosenFacets(w, k, E, s);
    }
    if s.Dim() == k && FacetsStored(w, s) {
      FacetsAdded(w, k, s);
    }
  }

  /** A union added at level `k` is a k-simplex containing `k + 1` stored (k-1)-simplices. */
  lemma AddedWitness(w: map<Simplex, real>, k: int, s: Simplex) returns (E: set<Simplex>)
    requires s in Added(w, k)
    ensures |E| == k + 1 && s.Dim() == k
    ensures forall x :: x in E ==> x in w && x.Dim() == k - 1 && x.vertices <= s.vertices
  {
    E :| E in Choices(Level(w, k - 1), k + 1) && Accepted(E, k) && s == UnionOf(E);
    LevelMembers(w, k - 1, E);
    UnionContains(E);
  }

  /** A k-simplex that contains `k + 1` stored (k-1)-simplices has all its facets stored. */
  lemma ChosenFacets(w: map<Simplex, real>, k: int, E: set<Simplex>, u: Simplex)
    requires |E| == k + 1 && u.Dim() == k
    requires forall x :: x in E ==> x in w && x.Dim() == k - 1 && x.vertices <= u.vertices
    ensures FacetsStored(w, u)
  {
    MembersAreFacets(E, u, k);
    StoredWhenWithin(w, u, E);
  }

  lemma LevelMembers(w: map<Simplex, real>, p: int, E: set<Simplex>)
    requires E <= Level(w, p)
    ensures forall x :: x in E ==> x in w && x.Dim() == p
  {
  }

  lemma StoredWhenWithin(w: map<Simplex, real>, s: Simplex, E: set<Simplex>)
    requires E == s.Facets() && forall x :: x in E ==> x in w
    ensures FacetsStored(w, s)
  {
  }

  lemma FacetsAdded(w: map<Simplex, real>, k: int, s: Simplex)
    requires k >= 2 && s.Dim() == k && FacetsStored(w, s)
    ensures s in Added(w, k)
  {
    var E := s.Facets();
    FacetCount(s);
    assert E <= Level(w, k - 1);
    InChoices(Level(w, k - 1), E, k + 1);
    FacetsMeet(s);
    UnionOfFacets(s);
    InAddedBy(Choices(Level(w, k - 1), k + 1), E, k);
  }

  lemma InChoices(L: set<Simplex>, E: set<Simplex>, r: int)
    requires E <= L && |E| == r
    ensures E in Choices(L, r)
  {
  }

  lemma InAddedBy(D: set<set<Simplex>>, E: set<Simplex>, k: int)
    requires E in D && Accepted(E, k)
    ensures UnionOf(E) in AddedBy(D, k)
  {
  }

  /** Every vertex set inside a clique is a clique. */
  lemma SubClique(w: map<Simplex, real>, vs: set<nat>, us: set<nat>)
    requires IsClique(w, vs) && us <= vs
    ensures IsClique(w, us)
  {
  }

  /** A simplex of dimension at least 2 is a clique exactly when all its facets are. */
  lemma CliqueByFacets(w: map<Simplex, real>, s: Simplex)
    requires s.Dim() >= 2
    ensures IsClique(w, s.vertices) <==> forall f :: f in s.Facets() ==> IsClique(w, f.vertices)
  {
    if IsClique(w, s.vertices) {
      forall f | f in s.Facets() ensures IsClique(w, f.vertices) {
        FacetIffSubsetOneSmaller(f, s);
        SubClique(w, s.vertices, f.vertices);
      }
    }
    if forall f :: f in s.Facets() ==> IsClique(w, f.vertices) {
      forall u, v | u in s.vertices && v in s.vertices && u != v ensures Simplex({u, v}) in w {
        var f := FacetWith(s, u, v);
      }
    }
  }

  /** In a simplex with at least three vertices, any two vertices lie in a common facet. */
  lemma FacetWith(s: Simplex, u: nat, v: nat) returns (f: Simplex)
    requires s.Dim() >= 2 && u in s.vertices && v in s.vertices
    ensures f in s.Facets() && u in f.vertices && v in f.vertices
  {
    assert |{u, v}| <= 2;
    if s.vertices - {u, v} == {} {
      SubsetCard(s.vertices, {u, v});
    }
    var c := Extrema.Pick(s.vertices - {u, v});
    f := Simplex(s.vertices - {c});
    assert IsFacetOf(f, s);
  }

  /** The vertices and edges of `W` are those of `w0`, at their weights. */
  ghost predicate KeepsLow(W: map<Simplex, real>, w0: map<Simplex, real>) {
    (forall s :: s in W && s.Dim() <= 1 <==> s in w0) &&
    (forall s :: s in w0 ==> s in W && W[s] == w0[s])
  }

  /** The simplices of `W` of dimension 2 or more are the cliques of `w0`'s edge graph of dimension at most `k`. */
  ghost predicate CliquesUpTo(W: map<Simplex, real>, w0: map<Simplex, real>, k: int) {
    forall s: Simplex :: s.Dim() >= 2 ==> (s in W <==> s.Dim() <= k && IsClique(w0, s.vertices))
  }

  ghost predicate NonNegative(W: map<Simplex, real>) {
    forall s :: s in W ==> W[s] >= 0.0
  }

  /** What the brute-force expansion of the skeleton `w0` holds once the levels up to `k` have run. */
  ghost predicate Stage(W: map<Simplex, real>, w0: map<Simplex, real>, k: int) {
    KeepsLow(W, w0) && CliquesUpTo(W, w0, k) && MaxOfFacets(W) && NonNegative(W)
  }

  /** With the stored cliques up to `k - 1`, a k-simplex has its facets stored exactly when it is a clique. */
  lemma StoredFacetsIffClique(W: map<Simplex, real>, w0: map<Simplex, real>, k: int, s: Simplex)
    requires k >= 2 && s.Dim() == k
    requires KeepsLow(W, w0) && CliquesUpTo(W, w0, k - 1)
    ensures FacetsStored(W, s) <==> IsClique(w0, s.vertices)
  {
    FacetCount(s);
    forall f | f in s.Facets() ensures f in W <==> IsClique(w0, f.vertices) {
      if k - 1 == 1 {
        if f in W {
          EdgeIsClique(w0, f);
        }
        if IsClique(w0, f.vertices) {
          PairCliqueIsEdge(w0, f);
        }
      }
    }
    CliqueByFacets(w0, s);
  }

  /** From the stored cliques up to `k - 1`, level `k` adds exactly the k-cliques. */
  lemma AddedAreCliques(W: map<Simplex, real>, w0: map<Simplex, real>, k: int)
    requires k >= 2 && KeepsLow(W, w0) && CliquesUpTo(W, w0, k - 1)
    ensures forall s :: s in Added(W, k) <==> s.Dim() == k && IsClique(w0, s.vertices)
  {
    forall s ensures s in Added(W, k) <==> s.Dim() == k && IsClique(w0, s.vertices) {
      AddedIff(W, k, s);
      if s.Dim() == k {
        StoredFacetsIffClique(W, w0, k, s);
      }
    }
  }

  /** The largest of 0 and the facet weights, over non-negative weights, is the largest facet weight. */
  lemma HeaviestOfFacets(W: map<Simplex, real>, s: Simplex)
    requires FacetsStored(W, s) && s.Dim() >= 0 && NonNegative(W)
    ensures Heaviest(W, s.Facets()) == MaxFacetWeight(W, s)
  {
    var m := MaxFacetWeight(W, s);
    MaxFacetWeightIsMax(W, s);
    var S := {0.0} + WeightsOf(W, s.Facets());
    forall z | z in WeightsOf(W, s.Facets()) ensures z <= m {
      var f :| f in s.Facets() && f in W && W[f] == z;
    }
    var f :| f in s.Facets() && f in W && W[f] == m;
    assert m in S && forall z :: z in S ==> z <= m;
    assert Extrema.MaxReal(S) <= m && m <= Extrema.MaxReal(S);
  }

  /** Growing by simplices of dimension `k` leaves every other simplex and its weight alone. */
  lemma GrowFrame(W: map<Simplex, real>, U: set<Simplex>, k: int)
    requires forall s :: s in U ==> s.Dim() == k
    ensures forall s :: s in Grow(W, U) <==> s in W || s in U
    ensures forall s :: s in W && s.Dim() != k ==> Grow(W, U)[s] == W[s]
    ensures forall s :: s in U ==> Grow(W, U)[s] == Heaviest(W, s.Facets())
  {
  }

  /** The weight a level gives a new k-simplex is its heaviest facet's, and its facets keep theirs. */
  lemma NewSimplexWeight(W: map<Simplex, real>, G: map<Simplex, real>, k: int, s: Simplex)
    requires k >= 2 && s.Dim() == k && FacetsStored(W, s) && NonNegative(W)
    requires forall t :: t in W && t.Dim() != k ==> t in G && G[t] == W[t]
    requires s in G && G[s] == Heaviest(W, s.Facets())
    ensures FacetsStored(G, s) && G[s] == MaxFacetWeight(G, s) && G[s] >= 0.0
  {
    FacetCount(s);
    HeaviestOfFacets(W, s);
    MaxFacetFrame(W, G, s);
    MaxFacetWeightIsMax(W, s);
    var f := Extrema.Pick(s.Facets());
  }

  /** A simplex of dimension below `k` keeps its weight and its facets' weights when level `k` runs. */
  lemma OldSimplexWeight(W: map<Simplex, real>, G: map<Simplex, real>, k: int, s: Simplex)
    requires s in W && 2 <= s.Dim() < k && MaxOfFacets(W)
    requires forall t :: t in W && t.Dim() != k ==> t in G && G[t] == W[t]
    ensures FacetsStored(G, s) && G[s] == MaxFacetWeight(G, s)
  {
    FacetCount(s);
    MaxFacetFrame(W, G, s);
  }

  /** Level `k` of the brute-force expansion turns the stage `k - 1` into the stage `k`. */
  lemma LevelStage(W: map<Simplex, real>, w0: map<Simplex, real>, k: int)
    requires k >= 2 && Stage(W, w0, k - 1)
    ensures Stage(NextLevelBF(W, k), w0, k)
  {
    var U := Added(W, k);
    var G := Grow(W, U);
    AddedAreCliques(W, w0, k);
    GrowFrame(W, U, k);
    AddedStored(W, k);
    GrownStage(W, w0, U, G, k);
  }

  /** Adding exactly the k-cliques, each at its heaviest facet, turns the stage `k - 1` into the stage `k`. */
  lemma GrownStage(W: map<Simplex, real>, w0: map<Simplex, real>, U: set<Simplex>, G: map<Simplex, real>, k: int)
    requires forall s :: s in G <==> s in W || s in U
    requires forall s :: s in W && s.Dim() != k ==> G[s] == W[s]
    requires forall s :: s in U ==> G[s] == Heaviest(W, s.Facets())
    requires forall s :: s in U <==> s.Dim() == k && IsClique(w0, s.vertices)
    requires forall s :: s in U ==> FacetsStored(W, s)
    requires k >= 2 && Stage(W, w0, k - 1)
    ensures Stage(G, w0, k)
  {
    GrowKeepsLow(W, w0, U, G, k);
    GrowCliques(W, w0, U, G, k);
    GrowMaxOfFacets(W, U, G, k);
  }

  lemma AddedStored(W: map<Simplex, real>, k: int)
    requires k >= 2
    ensures forall s :: s in Added(W, k) ==> FacetsStored(W, s)
  {
    forall s | s in Added(W, k) ensures FacetsStored(W, s) {
      AddedIff(W, k, s);
    }
  }

  /** A level that only adds k-simplices, `k >= 2`, keeps the vertices and edges. */
  lemma GrowKeepsLow(W: map<Simplex, real>, w0: map<Simplex, real>, U: set<Simplex>, G: map<Simplex, real>, k: int)
    requires k >= 2 && KeepsLow(W, w0)
    requires forall s :: s in U ==> s.Dim() == k
    requires forall s :: s in G <==> s in W || s in U
    requires forall s :: s in W && s.Dim() != k ==> G[s] == W[s]
    ensures KeepsLow(G, w0)
  {
  }

  /** Adding exactly the k-cliques to the cliques up to `k - 1` gives the cliques up to `k`. */
  lemma GrowCliques(W: map<Simplex, real>, w0: map<Simplex, real>, U: set<Simplex>, G: map<Simplex, real>, k: int)
    requires k >= 2 && CliquesUpTo(W, w0, k - 1)
    requires forall s :: s in U <==> s.Dim() == k && IsClique(w0, s.vertices)
    requires forall s :: s in G <==> s in W || s in U
    ensures CliquesUpTo(G, w0, k)
  {
  }

  /** New k-simplices at their heaviest facet and old simplices untouched keep every weight at its heaviest facet's, and non-negative. */
  lemma GrowMaxOfFacets(W: map<Simplex, real>, U: set<Simplex>, G: map<Simplex, real>, k: int)
    requires k >= 2 && MaxOfFacets(W) && NonNegative(W)
    requires forall s :: s in W ==> s.Dim() < k
    requires forall s :: s in U ==> s.Dim() == k && FacetsStored(W, s)
    requires forall s :: s in G <==> s in W || s in U
    requires forall s :: s in W && s.Dim() != k ==> G[s] == W[s]
    requires forall s :: s in U ==> G[s] == Heaviest(W, s.Facets())
    ensures MaxOfFacets(G) && NonNegative(G)
  {
    forall s | s in G && s.Dim() >= 2 ensures FacetsStored(G, s) && G[s] == MaxFacetWeight(G, s) {
      if s in U {
        NewSimplexWeight(W, G, k, s);
      } else {
        OldSimplexWeight(W, G, k, s);
      }
    }
    forall s | s in G ensures G[s] >= 0.0 {
      if s in U {
        NewSimplexWeight(W, G, k, s);
      }
    }
  }

  /** When level `k` holds fewer than `k + 1` simplices there is no clique of dimension `k + 1`. */
  lemma NoNextClique(W: map<Simplex, real>, w0: map<Simplex, real>, k: int, s: Simplex)
    requires k >= 2 && CliquesUpTo(W, w0, k) && |Level(W, k)| < k + 1
    requires s.Dim() == k + 1
    ensures !IsClique(w0, s.vertices)
  {
    if IsClique(w0, s.vertices) {
      CliqueByFacets(w0, s);
      FacetCount(s);
      assert s.Facets() <= Level(W, k);
      SubsetCard(s.Facets(), Level(W, k));
    }
  }

  /** Without a clique of dimension `k + 1` there is none of any higher dimension. */
  lemma {:induction false} NoHigherClique(W: map<Simplex, real>, w0: map<Simplex, real>, k: int, s: Simplex)
    requires k >= 2 && CliquesUpTo(W, w0, k) && |Level(W, k)| < k + 1
    requires s.Dim() > k
    ensures !IsClique(w0, s.vertices)
    decreases |s.vertices|
  {
    if s.Dim() == k + 1 {
      NoNextClique(W, w0, k, s);
    } else if IsClique(w0, s.vertices) {
      CliqueByFacets(w0, s);
      var v := Extrema.Pick(s.vertices);
      var f := Simplex(s.vertices - {v});
      assert IsFacetOf(f, s);
      FacetCount(s);
      NoHigherClique(W, w0, k, f);
    }
  }

  /** The early exit after level `k` keeps the stage of every later dimension. */
  lemma ExitKeepsStage(W: map<Simplex, real>, w0: map<Simplex, real>, k: int, dim: int)
    requires k >= 2 && Stage(W, w0, k) && |Level(W, k)| < k + 1 && dim >= k
    ensures Stage(W, w0, dim)
  {
    forall s: Simplex | s.Dim() > k ensures !IsClique(w0, s.vertices) {
      NoHigherClique(W, w0, k, s);
    }
  }

  /** The levels `j + 1` to `dim`, with the early exit, carry the stage `j` to the stage `dim`. */
  lemma {:induction false} LevelsStage(W: map<Simplex, real>, w0: map<Simplex, real>, j: int, dim: int)
    requires 1 <= j <= dim && Stage(W, w0, j)
    ensures Stage(LevelsFrom(W, j + 1, dim), w0, dim)
    decreases dim - j
  {
    var k := j + 1;
    if k <= dim {
      var W' := NextLevelBF(W, k);
      LevelStage(W, w0, k);
      if |Level(W', k)| < k + 1 {
        ExitKeepsStage(W', w0, k, dim);
        ExitResult(W, k, dim);
      } else {
        LevelsStage(W', w0, k, dim);
        NextResult(W, k, dim);
      }
    } else {
      NoLevelsLeft(W, k, dim);
      SameStage(W, w0, j, dim);
    }
  }

  lemma SameStage(W: map<Simplex, real>, w0: map<Simplex, real>, j: int, dim: int)
    requires Stage(W, w0, j) && j == dim
    ensures Stage(W, w0, dim)
  {
  }

  lemma NoLevelsLeft(W: map<Simplex, real>, k: int, dim: int)
    requires k > dim
    ensures LevelsFrom(W, k, dim) == W
  {
  }

  lemma ExitResult(W: map<Simplex, real>, k: int, dim: int)
    requires k <= dim && |Level(NextLevelBF(W, k), k)| < k + 1
    ensures LevelsFrom(W, k, dim) == NextLevelBF(W, k)
  {
  }

  lemma NextResult(W: map<Simplex, real>, k: int, dim: int)
    requires k <= dim && |Level(NextLevelBF(W, k), k)| >= k + 1
    ensures LevelsFrom(W, k, dim) == LevelsFrom(NextLevelBF(W, k), k + 1, dim)
  {
  }

  /** The skeleton of a non-negative metric is the stage before level 2. */
  lemma SkeletonStage(w0: map<Simplex, real>, n: nat, metric: (nat, nat) -> real, eps: real)
    requires IsSkeleton(w0, n, metric, eps) && forall i, j :: metric(i, j) >= 0.0
    ensures Stage(w0, w0, 1)
  {
    SkeletonShape(w0, n, metric, eps);
    forall s | s in w0 ensures w0[s] >= 0.0 {
      SkeletonMember(w0, n, metric, eps, s);
      if s.Dim() == 1 {
        var i, j :| 0 <= i < j < n && s == Simplex({i, j}) && w0[s] == metric(i, j);
      } else {
        var i :| 0 <= i < n && s == Simplex({i});
      }
    }
  }

  /** A stage of a skeleton is the inductive expansion's set of simplices, with the skeleton's low weights. */
  lemma StageIsExpansion(W: map<Simplex, real>, w0: map<Simplex, real>, dim: int)
    requires Stage(W, w0, dim) && forall s :: s in w0 ==> s.Dim() <= 1
    ensures SameLowWeights(W, Expanded(w0, dim)) && MaxOfFacets(W)
  {
    var e := Expanded(w0, dim);
    ExpansionAddsOnlyHigher(w0, dim);
    ExpansionIsCliqueComplex(w0, dim);
    assert CliquesUpTo(e, w0, dim);
    ExpansionKeepsLow(w0, e);
    SameShape(W, e, w0, dim);
  }

  /** A map that adds only simplices of dimension 2 or more to `w0`, a map of vertices and edges, keeps its vertices and edges. */
  lemma ExpansionKeepsLow(w0: map<Simplex, real>, e: map<Simplex, real>)
    requires forall s :: s in w0 ==> s.Dim() <= 1
    requires w0.Keys <= e.Keys
    requires forall s :: s in w0 && s.Dim() <= 1 ==> e[s] == w0[s]
    requires forall s :: s in e && s !in w0 ==> 2 <= s.Dim()
    ensures KeepsLow(e, w0)
  {
  }

  /** Two maps with the same vertices, edges and cliques up to `dim` have the same keys and low weights. */
  lemma SameShape(W: map<Simplex, real>, e: map<Simplex, real>, w0: map<Simplex, real>, dim: int)
    requires KeepsLow(W, w0) && CliquesUpTo(W, w0, dim)
    requires KeepsLow(e, w0) && CliquesUpTo(e, w0, dim)
    ensures SameLowWeights(W, e)
  {
    forall s ensures s in W <==> s in e {
      if s.Dim() <= 1 {
        assert s in W <==> s in w0;
      }
    }
    BothWays(W.Keys, e.Keys);
  }

  /**
   * `compute_skeleton()` and then the brute-force `compute_expansion(dim)`,
   * for `dim >= 1` and a non-negative metric: the simplices of the inductive
   * expansion, the skeleton's vertex and edge weights, and every higher
   * simplex at its heaviest facet.
   */
  lemma BruteForceIsExpansion(w0: map<Simplex, real>, n: nat, metric: (nat, nat) -> real, eps: real, dim: int)
    requires IsSkeleton(w0, n, metric, eps) && dim >= 1
    requires forall i, j :: metric(i, j) >= 0.0
    ensures SameLowWeights(LevelsFrom(w0, 2, dim), Expanded(w0, dim)) && MaxOfFacets(LevelsFrom(w0, 2, dim))
  {
    SkeletonShape(w0, n, metric, eps);
    SkeletonStage(w0, n, metric, eps);
    LevelsStage(w0, w0, 1, dim);
    StageIsExpansion(LevelsFrom(w0, 2, dim), w0, dim);
  }

  /**
   * On the same skeleton, the brute-force strategy and the inductive one
   * (after `compute_weights`) leave the same weighted complex.
   */
  lemma BruteForceAgreesWithInductive(w0: map<Simplex, real>, wInd: map<Simplex, real>,
                                      n: nat, metric: (nat, nat) -> real, eps: real, dim: int)
    requires IsSkeleton(w0, n, metric, eps) && dim >= 1
    requires forall i, j :: metric(i, j) >= 0.0
    requires SameLowWeights(wInd, Expanded(w0, dim)) && MaxOfFacets(wInd)
    ensures LevelsFrom(w0, 2, dim) == wInd
  {
    BruteForceIsExpansion(w0, n, metric, eps, dim);
    FacetMaxDetermined(LevelsFrom(w0, 2, dim), wInd);
  }

  /** The brute-force expansion of a skeleton is the Vietoris-Rips filtration. */
  lemma BruteForceGivesVietorisRips(w0: map<Simplex, real>, n: nat, metric: (nat, nat) -> real, eps: real, dim: int)
    requires IsSkeleton(w0, n, metric, eps) && dim >= 1
    requires forall i, j :: metric(i, j) >= 0.0
    ensures VietorisRips(LevelsFrom(w0, 2, dim), n, metric, eps, dim)
  {
    var w := LevelsFrom(w0, 2, dim);
    BruteForceIsExpansion(w0, n, metric, eps, dim);
    InductiveIsVietorisRips(w0, w, n, metric, eps, dim);
    KeepsSkeleton(w0, w);
    assert IsSkeleton(LowPart(w), n, metric, eps);
  }

  /**
   * `compute_skeleton()` and then the brute-force `compute_expansion(dim)`
   * on a builder, for `dim >= 1` and a non-negative metric: the expansion
   * succeeds and the builder's complex is the Vietoris-Rips filtration.
   */
  method SkeletonThenBruteForce(b: VRBuilder, dim: int) returns (res: Outcome<VRError>)
    requires b.Valid() && dim >= 1
    requires forall i, j :: b.metric(i, j) >= 0.0
    modifies b
    ensures res == Pass && b.complex != null
    ensures VietorisRips(b.complex.weights, b.n, b.metric, b.epsilon, dim)
  {
    ComputeSkeleton(b);
    ghost var w0 := b.complex.weights;
    res := BruteForceExpansion.ComputeExpansion(b, dim);
    BruteForceGivesVietorisRips(w0, b.n, b.metric, b.epsilon, dim);
  }
}
