/**
 * Complexes/VR/Skeleton/SkeletonBruteForce.py: the 1-skeleton of the
 * Vietoris-Rips complex. Every point becomes a vertex of weight 0 and every
 * pair of points closer than epsilon an edge weighted by their distance.
 */
module SkeletonBruteForce {
  import opened Simplices
  import opened FilteredComplexes
  import opened VRBase

  /** `s` is the vertex of one of the first `n` points. */
  ghost predicate IsPoint(s: Simplex, n: nat) {
    exists i :: 0 <= i < n && s == Simplex({i})
  }

  /** `s` is the edge between two of the first `n` points, closer than `eps`. */
  ghost predicate IsShortEdge(s: Simplex, n: nat, metric: (nat, nat) -> real, eps: real) {
    exists i, j :: 0 <= i < j < n && s == Simplex({i, j}) && metric(i, j) < eps
  }

  /**
   * `w` is the weighted 1-skeleton: the vertices of all points at weight 0
   * and, for each pair i < j, the edge {i, j} exactly when it is shorter than
   * `eps`, weighted by its length.
   */
  ghost predicate IsSkeleton(w: map<Simplex, real>, n: nat, metric: (nat, nat) -> real, eps: real) {
    (forall s :: s in w ==> IsPoint(s, n) || IsShortEdge(s, n, metric, eps)) &&
    (forall i :: 0 <= i < n ==> Simplex({i}) in w && w[Simplex({i})] == 0.0) &&
    (forall i, j :: 0 <= i < j < n ==> (Simplex({i, j}) in w <==> metric(i, j) < eps)) &&
    (forall i, j :: 0 <= i < j < n && metric(i, j) < eps ==> w[Simplex({i, j})] == metric(i, j))
  }

  /** The pair (a, b) comes before (i, j) in the order `combinations` visits pairs. */
  ghost predicate Before(a: nat, b: nat, i: nat, j: nat) {
    a < i || (a == i && b < j)
  }

  /** The weights once every vertex and the edges of the pairs before (i, j) are in. */
  ghost predicate SkeletonUpTo(w: map<Simplex, real>, n: nat, metric: (nat, nat) -> real, eps: real, i: nat, j: nat) {
    (forall s :: s in w ==> IsPoint(s, n) || exists a, b :: 0 <= a < b < n && Before(a, b, i, j) && s == Simplex({a, b}) && metric(a, b) < eps) &&
    (forall k :: 0 <= k < n ==> Simplex({k}) in w && w[Simplex({k})] == 0.0) &&
    (forall a, b :: 0 <= a < b < n && Before(a, b, i, j) && metric(a, b) < eps ==> Simplex({a, b}) in w && w[Simplex({a, b})] == metric(a, b))
  }

  /** `compute_skeleton`: a fresh unchecked complex replaces any previous one. */
  method ComputeSkeleton(b: VRBuilder)
    requires b.Valid()
    modifies b
    ensures b.Valid() && b.complex != null && fresh(b.complex)
    ensures b.skeletonBuilt && b.newComplex == old(b.newComplex)
    ensures IsSkeleton(b.complex.weights, b.n, b.metric, b.epsilon)
  {
    var c := new FilteredComplex(false);
    AddVertices(c, b.n);
    VerticesDone(c.weights, b.n, b.metric, b.epsilon);
    for i := 0 to b.n
      invariant c.Valid() && SkeletonUpTo(c.weights, b.n, b.metric, b.epsilon, i, i)
      modifies c
    {
      AddShortEdges(c, b.n, b.metric, b.epsilon, i);
      SkeletonRowDone(c.weights, b.n, b.metric, b.epsilon, i);
    }
    SkeletonDone(c.weights, b.n, b.metric, b.epsilon);
    b.complex := c;
    b.skeletonBuilt := true;
  }

  /** The first loop of `compute_skeleton`: a weight-0 vertex per point. */
  method AddVertices(c: FilteredComplex, n: nat)
    requires c.Valid() && !c.checkValid && c.weights == map[]
    modifies c
    ensures c.Valid() && VerticesUpTo(c.weights, n)
  {
    for i := 0 to n
      invariant c.Valid() && VerticesUpTo(c.weights, i)
    {
      ghost var w := c.weights;
      var _ := c.AddSimplex(Simplex({i}), 0.0);
      VertexStep(w, i);
    }
  }

  /** The pairs (i, j), j > i, of the second loop of `compute_skeleton`: the short ones become edges. */
  method AddShortEdges(c: FilteredComplex, n: nat, metric: (nat, nat) -> real, eps: real, i: nat)
    requires i < n && c.Valid() && !c.checkValid && SkeletonUpTo(c.weights, n, metric, eps, i, i)
    modifies c
    ensures c.Valid() && SkeletonUpTo(c.weights, n, metric, eps, i, n)
  {
    SkeletonRowStart(c.weights, n, metric, eps, i);
    for j := i + 1 to n
      invariant c.Valid() && SkeletonUpTo(c.weights, n, metric, eps, i, j)
    {
      AddIfShort(c, n, metric, eps, i, j);
    }
  }

  /** One pair of the second loop: the edge goes in, weighted by its length, when it is shorter than `eps`. */
  method AddIfShort(c: FilteredComplex, n: nat, metric: (nat, nat) -> real, eps: real, i: nat, j: nat)
    requires i < j < n && c.Valid() && !c.checkValid && SkeletonUpTo(c.weights, n, metric, eps, i, j)
    modifies c
    ensures c.Valid() && SkeletonUpTo(c.weights, n, metric, eps, i, j + 1)
  {
    var dist := metric(i, j);
    ghost var w := c.weights;
    if dist < eps {
      var _ := c.AddSimplex(Simplex({i, j}), dist);
    }
    SkeletonStep(w, c.weights, n, metric, eps, i, j);
  }

  /** The weights once the vertices of the first `i` points are in. */
  ghost predicate VerticesUpTo(w: map<Simplex, real>, i: nat) {
    (forall s :: s in w ==> IsPoint(s, i)) &&
    (forall k :: 0 <= k < i ==> Simplex({k}) in w && w[Simplex({k})] == 0.0)
  }

  lemma VertexStep(w: map<Simplex, real>, i: nat)
    requires VerticesUpTo(w, i)
    ensures VerticesUpTo(w[Simplex({i}) := 0.0], i + 1)
  {
    forall s | s in w ensures IsPoint(s, i + 1) {
      var k :| 0 <= k < i && s == Simplex({k});
    }
  }

  lemma VerticesDone(w: map<Simplex, real>, n: nat, metric: (nat, nat) -> real, eps: real)
    requires VerticesUpTo(w, n)
    ensures SkeletonUpTo(w, n, metric, eps, 0, 0)
  {
  }

  /** An edge names its two ends: {a, b} = {i, j} with a < b and i < j forces a = i and b = j. */
  lemma SameEdge(a: nat, b: nat, i: nat, j: nat)
    requires a < b && i < j && Simplex({a, b}) == Simplex({i, j})
    ensures a == i && b == j
  {
    assert a in {i, j} && b in {i, j} && i in {a, b} && j in {a, b};
  }

  /** An edge is not a vertex. */
  lemma EdgeIsNotVertex(a: nat, b: nat, k: nat)
    requires a < b
    ensures Simplex({a, b}) != Simplex({k})
  {
    assert a in {a, b} && b in {a, b};
  }

  lemma SkeletonStep(w: map<Simplex, real>, w': map<Simplex, real>, n: nat, metric: (nat, nat) -> real, eps: real, i: nat, j: nat)
    requires i < j < n && SkeletonUpTo(w, n, metric, eps, i, j)
    requires w' == if metric(i, j) < eps then w[Simplex({i, j}) := metric(i, j)] else w
    ensures SkeletonUpTo(w', n, metric, eps, i, j + 1)
  {
    var e := Simplex({i, j});
    forall s | s in w' ensures IsPoint(s, n) || exists a, b :: 0 <= a < b < n && Before(a, b, i, j + 1) && s == Simplex({a, b}) && metric(a, b) < eps {
      if s == e && metric(i, j) < eps {
        assert Before(i, j, i, j + 1);
      }
    }
    forall k | 0 <= k < n ensures Simplex({k}) in w' && w'[Simplex({k})] == 0.0 {
      EdgeIsNotVertex(i, j, k);
    }
    forall a, b | 0 <= a < b < n && Before(a, b, i, j + 1) && metric(a, b) < eps
      ensures Simplex({a, b}) in w' && w'[Simplex({a, b})] == metric(a, b)
    {
      if Simplex({a, b}) == e {
        SameEdge(a, b, i, j);
      }
    }
  }

  lemma SkeletonRowStart(w: map<Simplex, real>, n: nat, metric: (nat, nat) -> real, eps: real, i: nat)
    requires SkeletonUpTo(w, n, metric, eps, i, i)
    ensures SkeletonUpTo(w, n, metric, eps, i, i + 1)
  {
    forall s | s in w && !IsPoint(s, n)
      ensures exists a, b :: 0 <= a < b < n && Before(a, b, i, i + 1) && s == Simplex({a, b}) && metric(a, b) < eps
    {
      var a, b :| 0 <= a < b < n && Before(a, b, i, i) && s == Simplex({a, b}) && metric(a, b) < eps;
      assert Before(a, b, i, i + 1);
    }
  }

  lemma SkeletonRowDone(w: map<Simplex, real>, n: nat, metric: (nat, nat) -> real, eps: real, i: nat)
    requires i < n && SkeletonUpTo(w, n, metric, eps, i, n)
    ensures SkeletonUpTo(w, n, metric, eps, i + 1, i + 1)
  {
    forall s | s in w && !IsPoint(s, n)
      ensures exists a, b :: 0 <= a < b < n && Before(a, b, i + 1, i + 1) && s == Simplex({a, b}) && metric(a, b) < eps
    {
      var a, b :| 0 <= a < b < n && Before(a, b, i, n) && s == Simplex({a, b}) && metric(a, b) < eps;
      assert Before(a, b, i + 1, i + 1);
    }
  }

  lemma SkeletonDone(w: map<Simplex, real>, n: nat, metric: (nat, nat) -> real, eps: real)
    requires SkeletonUpTo(w, n, metric, eps, n, n)
    ensures IsSkeleton(w, n, metric, eps)
  {
    forall s | s in w ensures IsPoint(s, n) || IsShortEdge(s, n, metric, eps) {
    }
    forall i, j | 0 <= i < j < n && Simplex({i, j}) in w ensures metric(i, j) < eps {
      if !IsPoint(Simplex({i, j}), n) {
        var a, b :| 0 <= a < b < n && Simplex({i, j}) == Simplex({a, b}) && metric(a, b) < eps;
        SameEdge(a, b, i, j);
      } else {
        var k :| 0 <= k < n && Simplex({i, j}) == Simplex({k});
        EdgeIsNotVertex(i, j, k);
      }
    }
  }

  /** A skeleton has no simplex above dimension 1, and every edge is shorter than epsilon. */
  lemma SkeletonShape(w: map<Simplex, real>, n: nat, metric: (nat, nat) -> real, eps: real)
    requires IsSkeleton(w, n, metric, eps)
    ensures forall s :: s in w ==> s.Dim() <= 1
    ensures forall s :: s in w && s.Dim() == 1 ==> w[s] < eps
  {
    forall s | s in w ensures s.Dim() <= 1 && (s.Dim() == 1 ==> w[s] < eps) {
      SkeletonMember(w, n, metric, eps, s);
    }
  }

  lemma SkeletonMember(w: map<Simplex, real>, n: nat, metric: (nat, nat) -> real, eps: real, s: Simplex)
    requires IsSkeleton(w, n, metric, eps) && s in w
    ensures s.Dim() <= 1 && (s.Dim() == 1 ==> w[s] < eps)
    ensures s.Dim() == 1 ==> exists i, j :: 0 <= i < j < n && s == Simplex({i, j}) && w[s] == metric(i, j)
  {
    if IsShortEdge(s, n, metric, eps) {
      var i, j :| 0 <= i < j < n && s == Simplex({i, j}) && metric(i, j) < eps;
      PairCard(i, j);
    } else {
      var k :| 0 <= k < n && s == Simplex({k});
      assert |{k}| == 1;
    }
  }

  /** With a non-negative metric the skeleton is a filtration: no edge is lighter than its ends. */
  lemma SkeletonIsFiltration(w: map<Simplex, real>, n: nat, metric: (nat, nat) -> real, eps: real)
    requires IsSkeleton(w, n, metric, eps)
    requires forall i, j :: metric(i, j) >= 0.0
    ensures Filtration(w)
  {
    forall s | s in w && s.Dim() >= 1 ensures FacetsFit(w, s, w[s]) {
      SkeletonMember(w, n, metric, eps, s);
      var i, j :| 0 <= i < j < n && s == Simplex({i, j}) && w[s] == metric(i, j);
      forall f | f in s.Facets() ensures f in w && w[f] <= w[s] {
        EdgeFacets(i, j, f);
      }
    }
  }

  /** The facets of an edge are its two end vertices. */
  lemma EdgeFacets(i: nat, j: nat, f: Simplex)
    requires i < j && f in Simplex({i, j}).Facets()
    ensures f == Simplex({i}) || f == Simplex({j})
  {
    var v :| v in {i, j} && f.vertices == {i, j} - {v};
    if v == i {
      assert f.vertices == {j};
    } else {
      assert f.vertices == {i};
    }
  }
}
