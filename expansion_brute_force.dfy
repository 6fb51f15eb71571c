/**
 * Complexes/VR/Expansion/ExpansionBruteForce.py: the brute-force expansion.
 * For each dimension k from 2 to `dim` it tries every choice of k + 1 stored
 * (k-1)-simplices; a choice whose members pairwise share a vertex and whose
 * union has dimension exactly k adds that union, weighted by the largest of
 * 0 and the members' weights. It stops early after a dimension that holds
 * fewer than k + 1 simplices.
 */
module BruteForceExpansion {
  import opened Wrappers
  import opened Simplices
  import opened FilteredComplexes
  import opened FacetWeights
  import opened VRBase
  import opened InductiveExpansion
  import Extrema

  /** Some member of `E` has the vertex `v`. */
  ghost predicate Spans(E: set<Simplex>, v: nat) {
    exists x :: x in E && v in x.vertices
  }

  /** `elem[0].union(*elem[1:])`: the vertices of all members of `E`. */
  function UnionOf(E: set<Simplex>): Simplex {
    Simplex(set x, v | x in E && v in x.vertices :: v)
  }

  /** The union contains every member. */
  lemma UnionContains(E: set<Simplex>)
    ensures forall x :: x in E ==> x.vertices <= UnionOf(E).vertices
  {
  }

  /** Every vertex of the union comes from some member. */
  lemma UnionSpans(E: set<Simplex>)
    ensures forall v :: v in UnionOf(E).vertices ==> Spans(E, v)
  {
  }

  /** The test of the pair loop: every two distinct members share a vertex. */
  ghost predicate PairwiseMeet(E: set<Simplex>) {
    forall x, y :: x in E && y in E && x != y ==> x.Intersect(y).Dim() != -1
  }

  /** A choice that adds its union at dimension `k`. */
  ghost predicate Accepted(E: set<Simplex>, k: int) {
    PairwiseMeet(E) && UnionOf(E).Dim() == k
  }

  /** `combinations(L, r)`: every choice of `r` members of `L`. */
  function Choices(L: set<Simplex>, r: int): (cs: set<set<Simplex>>)
    ensures forall E :: E in cs <==> E <= L && |E| == r
  {
    set E | E <= L && |E| == r
  }

  /** `combinations(elem, 2)`: the unordered pairs of distinct members. */
  function Pairs(E: set<Simplex>): (ps: set<set<Simplex>>)
    ensures forall x, y :: x in E && y in E && x != y ==> {x, y} in ps
  {
    set x, y | x in E && y in E && x != y :: {x, y}
  }

  /** The members of the pairs in `D`. */
  ghost function Covered(D: set<set<Simplex>>): set<Simplex> {
    set p, x | p in D && x in p :: x
  }

  /** `m` is the largest element of `S`. */
  ghost predicate IsMaxOf(m: real, S: set<real>) {
    m in S && forall z :: z in S ==> z <= m
  }

  /** `max_dist` for a choice `E` that passes the pair test: the largest of 0 and the weights of `E`. */
  ghost function Heaviest(w: map<Simplex, real>, E: set<Simplex>): real {
    Extrema.MaxReal({0.0} + WeightsOf(w, E))
  }

  /** The unions the accepted choices among `D` add at dimension `k`. */
  ghost function AddedBy(D: set<set<Simplex>>, k: int): set<Simplex> {
    set E | E in D && Accepted(E, k) :: UnionOf(E)
  }

  /** The unions level `k` adds to `w`. */
  ghost function Added(w: map<Simplex, real>, k: int): set<Simplex> {
    AddedBy(Choices(Level(w, k - 1), k + 1), k)
  }

  /** `w` with each simplex of `U` added or reset to the largest of 0 and its facets' weights. */
  ghost function Grow(w: map<Simplex, real>, U: set<Simplex>): map<Simplex, real> {
    map s | s in w.Keys + U :: if s in U then Heaviest(w, s.Facets()) else w[s]
  }

  /** The weights after level `k` of the loop. */
  ghost function NextLevelBF(w: map<Simplex, real>, k: int): map<Simplex, real> {
    Grow(w, Added(w, k))
  }

  /**
   * The levels `k` to `dim`, each followed by the early exit when it holds
   * fewer than `k + 1` simplices.
   */
  ghost function LevelsFrom(w: map<Simplex, real>, k: int, dim: int): map<Simplex, real>
    decreases dim - k
  {
    if k > dim then w
    else
      var w' := NextLevelBF(w, k);
      if |Level(w', k)| < k + 1 then w' else LevelsFrom(w', k + 1, dim)
  }

  /**
   * `compute_expansion(dim)`: without a skeleton it raises before any change;
   * without a complex the first level fails on the attribute lookup;
   * otherwise the levels 2 to `dim` run with the early exit.
   */
  method ComputeExpansion(b: VRBuilder, dim: int) returns (res: Outcome<VRError>)
    requires b.Valid()
    modifies b.complex
    ensures b.Valid()
    ensures !b.skeletonBuilt ==> res == Fail(SkeletonMissing)
    ensures b.skeletonBuilt && b.complex == null ==> (res == Fail(NoComplex) <==> dim >= 2) && (res.Pass? <==> dim < 2)
    ensures b.skeletonBuilt && b.complex != null ==> res == Pass
    ensures b.complex != null ==>
      b.complex.weights == if b.skeletonBuilt then LevelsFrom(old(b.complex.weights), 2, dim) else old(b.complex.weights)
  {
    if !b.skeletonBuilt {
      return Fail(SkeletonMissing);
    }
    var c := b.complex;
    if c == null {
      if dim >= 2 {
        return Fail(NoComplex);
      }
      return Pass;
    }
    ExpandLevels(c, dim);
    return Pass;
  }

  /** The loop over `simplex_dim` from 2 to `dim`, with the `break` on the simplex count. */
  method ExpandLevels(c: FilteredComplex, dim: int)
    requires c.Valid() && !c.checkValid
    modifies c
    ensures c.Valid() && !c.checkValid
    ensures c.weights == LevelsFrom(old(c.weights), 2, dim)
  {
    ghost var w0 := c.weights;
    var k := 2;
    while k <= dim
      invariant 2 <= k
      invariant c.Valid() && !c.checkValid
      invariant LevelsFrom(w0, 2, dim) == LevelsFrom(c.weights, k, dim)
      decreases dim - k
    {
      ghost var before := c.weights;
      ExpandLevel(c, k);
      LevelIs(c.PSimplices(k), c.Stored(), c.weights, k);
      if c.PSimplexCount(k) < k + 1 {
        break;
      }
      k := k + 1;
    }
  }

  /** One level: every choice of `k + 1` stored `(k-1)`-simplices is tried. */
  method ExpandLevel(c: FilteredComplex, k: int)
    requires c.Valid() && !c.checkValid && k >= 2
    modifies c
    ensures c.Valid() && !c.checkValid
    ensures c.weights == NextLevelBF(old(c.weights), k)
  {
    ghost var w0 := c.weights;
    var level := c.PSimplices(k - 1);
    LevelIs(level, c.Stored(), w0, k - 1);
    var choices := Choices(level, k + 1);
    var todo := choices;
    ghost var done: set<set<Simplex>> := {};
    while todo != {}
      invariant todo <= choices && done == choices - todo
      invariant c.Valid() && !c.checkValid
      invariant c.weights == Grow(w0, AddedBy(done, k))
      decreases |todo|
    {
      var E := Extrema.Choose(todo);
      AddedDim(done, k);
      GrowKeepsBelow(w0, AddedBy(done, k), k, E);
      ghost var before := c.weights;
      TryChoice(c, E, k);
      ChoiceStep(w0, done, E, k, before);
      Extrema.Moved(choices, todo, done, E);
      done := done + {E};
      todo := todo - {E};
    }
    Extrema.Exhausted(choices, todo, done);
  }

  /** The body for one choice `E`: the pair loop, then the union and its insertion. */
  method TryChoice(c: FilteredComplex, E: set<Simplex>, k: int)
    requires c.Valid() && !c.checkValid
    requires E <= c.weights.Keys && |E| >= 2
    modifies c
    ensures c.Valid() && !c.checkValid
    ensures c.weights == if Accepted(E, k) then old(c.weights)[UnionOf(E) := Heaviest(old(c.weights), E)] else old(c.weights)
  {
    var flag, maxDist := ScanPairs(c, E);
    var u := UnionOf(E);
    if flag && u.Dim() == k {
      var _ := c.AddSimplex(u, maxDist);
    }
  }

  /**
   * The pair loop: `flag` stays true exactly when every two members share a
   * vertex, and then `max_dist` is the largest of 0 and their weights.
   */
  method ScanPairs(c: FilteredComplex, E: set<Simplex>) returns (flag: bool, maxDist: real)
    requires c.Valid() && E <= c.weights.Keys && |E| >= 2
    ensures flag <==> PairwiseMeet(E)
    ensures flag ==> maxDist == Heaviest(c.weights, E)
  {
    var pairs := Pairs(E);
    var todo := pairs;
    ghost var done: set<set<Simplex>> := {};
    flag := true;
    maxDist := 0.0;
    assert WeightsOf(c.weights, Covered(done)) == {};
    while todo != {}
      invariant todo <= pairs && done == pairs - todo
      invariant forall q :: q in done ==> Meets(q)
      invariant IsMaxOf(maxDist, {0.0} + WeightsOf(c.weights, Covered(done)))
      decreases |todo|
    {
      var p := Extrema.Choose(todo);
      var x, y := PairEnds(E, p);
      if x.Intersect(y).Dim() == -1 {
        flag := false;
        assert !PairwiseMeet(E);
        return;
      }
      MeetsPair(x, y);
      var wx := c.GetWeight(x).value;
      var wy := c.GetWeight(y).value;
      ScanStep(c.weights, done, x, y, maxDist);
      maxDist := Larger(maxDist, wx);
      maxDist := Larger(maxDist, wy);
      Extrema.Moved(pairs, todo, done, p);
      done := done + {p};
      todo := todo - {p};
    }
    Extrema.Exhausted(pairs, todo, done);
    PairsCover(E);
    AllPairsMeet(E);
    HeaviestIsMax(c.weights, E, maxDist);
  }

  /** Every two distinct members of `q` share a vertex. */
  ghost predicate Meets(q: set<Simplex>) {
    forall x, y :: x in q && y in q && x != y ==> x.Intersect(y).Dim() != -1
  }

  lemma MeetsPair(x: Simplex, y: Simplex)
    requires x.Intersect(y).Dim() != -1
    ensures Meets({x, y})
  {
    assert x.Intersect(y) == y.Intersect(x);
  }

  /** A set meets pairwise exactly when each of its pairs does. */
  lemma AllPairsMeet(E: set<Simplex>)
    ensures (forall q :: q in Pairs(E) ==> Meets(q)) ==> PairwiseMeet(E)
  {
    if forall q :: q in Pairs(E) ==> Meets(q) {
      forall x, y | x in E && y in E && x != y ensures x.Intersect(y).Dim() != -1 {
        assert {x, y} in Pairs(E);
        assert Meets({x, y});
      }
    }
  }

  /** The two members of a pair. */
  method PairEnds(E: set<Simplex>, p: set<Simplex>) returns (x: Simplex, y: Simplex)
    requires p in Pairs(E)
    ensures p == {x, y} && x != y && x in E && y in E
  {
    x := Extrema.Choose(p);
    ghost var a, b :| a in E && b in E && a != b && p == {a, b};
    assert x == a || x == b;
    if x == a {
      assert b in p - {x};
    } else {
      assert a in p - {x};
    }
    y := Extrema.Choose(p - {x});
  }

  /** `max(a, b)` as the pair loop writes it. */
  function Larger(a: real, b: real): (m: real)
    ensures m >= a && m >= b && (m == a || m == b)
  {
    if a < b then b else a
  }

  /** One pair `{x, y}` of the loop keeps `max_dist` the largest weight seen. */
  lemma ScanStep(w: map<Simplex, real>, done: set<set<Simplex>>, x: Simplex, y: Simplex, m: real)
    requires x in w && y in w
    requires IsMaxOf(m, {0.0} + WeightsOf(w, Covered(done)))
    ensures Covered(done + {{x, y}}) == Covered(done) + {x, y}
    ensures IsMaxOf(Larger(Larger(m, w[x]), w[y]), {0.0} + WeightsOf(w, Covered(done + {{x, y}})))
  {
    CoveredStep(done, {x, y}, x, y);
    WeightsOfUnion(w, Covered(done), {x, y});
    assert WeightsOf(w, {x, y}) == {w[x], w[y]};
  }

  lemma CoveredStep(done: set<set<Simplex>>, p: set<Simplex>, x: Simplex, y: Simplex)
    requires p == {x, y}
    ensures Covered(done + {p}) == Covered(done) + {x, y}
  {
  }

  lemma WeightsOfUnion(w: map<Simplex, real>, A: set<Simplex>, B: set<Simplex>)
    ensures WeightsOf(w, A + B) == WeightsOf(w, A) + WeightsOf(w, B)
  {
  }

  /** The pairs of a set with at least two members cover it. */
  lemma PairsCover(E: set<Simplex>)
    requires |E| >= 2
    ensures Covered(Pairs(E)) == E
  {
    assert E <= Covered(Pairs(E)) by {
      forall x | x in E ensures x in Covered(Pairs(E)) {
        InSomePair(E, x);
      }
    }
    assert Covered(Pairs(E)) <= E by {
      CoveredWithin(E);
    }
    BothWays(Covered(Pairs(E)), E);
  }

  lemma BothWays<T>(A: set<T>, B: set<T>)
    requires A <= B && B <= A
    ensures A == B
  {
  }

  lemma InSomePair(E: set<Simplex>, x: Simplex)
    requires |E| >= 2 && x in E
    ensures x in Covered(Pairs(E))
  {
    assert |E - {x}| == |E| - 1;
    var y := Extrema.Pick(E - {x});
    InCovered(Pairs(E), {x, y}, x);
  }

  lemma InCovered(D: set<set<Simplex>>, p: set<Simplex>, x: Simplex)
    requires p in D && x in p
    ensures x in Covered(D)
  {
  }

  /** The pairs of `E` cover no more than `E`. */
  lemma CoveredWithin(E: set<Simplex>)
    ensures Covered(Pairs(E)) <= E
  {
  }

  /** The largest of 0 and the weights of `E` is `Heaviest`. */
  lemma HeaviestIsMax(w: map<Simplex, real>, E: set<Simplex>, m: real)
    requires IsMaxOf(m, {0.0} + WeightsOf(w, E))
    ensures m == Heaviest(w, E)
  {
  }

  /** What trying `E` does to the weights is one step of `Grow` over the accepted choices. */
  lemma ChoiceStep(w0: map<Simplex, real>, done: set<set<Simplex>>, E: set<Simplex>, k: int, w: map<Simplex, real>)
    requires k >= 2 && E <= Level(w0, k - 1) && |E| == k + 1
    requires w == Grow(w0, AddedBy(done, k))
    ensures (if Accepted(E, k) then w[UnionOf(E) := Heaviest(w, E)] else w) == Grow(w0, AddedBy(done + {E}, k))
  {
    if Accepted(E, k) {
      AddedByStep(done, E, k);
      AddedDim(done, k);
      GrowKeepsBelow(w0, AddedBy(done, k), k, E);
      ChoiceIsFacets(E, k);
      GrowStep(w0, AddedBy(done, k), UnionOf(E));
    } else {
      AddedByRejected(done, E, k);
    }
  }

  /** Trying an accepted `E` adds its union. */
  lemma AddedByStep(done: set<set<Simplex>>, E: set<Simplex>, k: int)
    requires Accepted(E, k)
    ensures AddedBy(done + {E}, k) == AddedBy(done, k) + {UnionOf(E)}
  {
  }

  /** Trying a rejected `E` adds nothing. */
  lemma AddedByRejected(done: set<set<Simplex>>, E: set<Simplex>, k: int)
    requires !Accepted(E, k)
    ensures AddedBy(done + {E}, k) == AddedBy(done, k)
  {
  }

  lemma AddedDim(D: set<set<Simplex>>, k: int)
    ensures forall s :: s in AddedBy(D, k) ==> s.Dim() == k
  {
  }

  /** What a level adds has dimension `k`, so the `(k-1)`-simplices keep their weights. */
  lemma GrowKeepsBelow(w0: map<Simplex, real>, U: set<Simplex>, k: int, E: set<Simplex>)
    requires forall s :: s in U ==> s.Dim() == k
    requires E <= Level(w0, k - 1)
    ensures E <= Grow(w0, U).Keys
    ensures forall x :: x in E ==> Grow(w0, U)[x] == w0[x]
    ensures WeightsOf(Grow(w0, U), E) == WeightsOf(w0, E)
  {
  }

  /** Adding the union `u` of an accepted choice extends what the level has added by `u`. */
  lemma GrowStep(w0: map<Simplex, real>, U: set<Simplex>, u: Simplex)
    ensures Grow(w0, U)[u := Heaviest(w0, u.Facets())] == Grow(w0, U + {u})
  {
  }

  lemma SameCardSubset<T>(A: set<T>, B: set<T>)
    requires A <= B && |A| == |B|
    ensures A == B
  {
    assert |B - A| == |B| - |A|;
  }

  /**
   * An accepted choice of `k + 1` simplices of dimension `k - 1` is the set
   * of facets of its union, so the weight it gives the union is the largest
   * of 0 and the union's facet weights.
   */
  lemma ChoiceIsFacets(E: set<Simplex>, k: int)
    requires |E| == k + 1 && forall x :: x in E ==> x.Dim() == k - 1
    requires UnionOf(E).Dim() == k
    ensures E == UnionOf(E).Facets()
  {
    UnionContains(E);
    MembersAreFacets(E, UnionOf(E), k);
  }

  /** `k + 1` simplices of dimension `k - 1` inside a `k`-simplex are its facets. */
  lemma MembersAreFacets(E: set<Simplex>, u: Simplex, k: int)
    requires |E| == k + 1
    requires forall x :: x in E ==> x.Dim() == k - 1 && x.vertices <= u.vertices
    requires u.Dim() == k
    ensures E == u.Facets()
  {
    forall x | x in E ensures x in u.Facets() {
      FacetIffSubsetOneSmaller(x, u);
    }
    FacetCount(u);
    SameCardSubset(E, u.Facets());
  }
}
