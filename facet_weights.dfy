/**
 * `compute_weights` of the expansion strategies: every simplex of dimension
 * at least 2 is given the largest weight among its facets, level by level
 * upwards, so that it enters the filtration as soon as its last facet does.
 */
module FacetWeights {
  import opened Wrappers
  import opened Simplices
  import opened FilteredComplexes
  import opened DimIndex
  import Extrema

  /** Every facet of `s` is stored in `w`. */
  ghost predicate FacetsStored(w: map<Simplex, real>, s: Simplex) {
    forall f :: f in s.Facets() ==> f in w
  }

  /** The weights the simplices of `fs` that are stored in `w` carry. */
  ghost function WeightsOf(w: map<Simplex, real>, fs: set<Simplex>): set<real> {
    set f | f in fs && f in w :: w[f]
  }

  lemma WeightsOfHas(w: map<Simplex, real>, fs: set<Simplex>)
    ensures forall f :: f in fs && f in w ==> w[f] in WeightsOf(w, fs)
  {
  }

  lemma WeightOfIn(w: map<Simplex, real>, fs: set<Simplex>, f: Simplex)
    requires f in fs && f in w
    ensures w[f] in WeightsOf(w, fs)
  {
  }

  /** `max(get_weight(facet) for facet in s.facets)`, for a non-empty `s` whose facets are all stored. */
  ghost function MaxFacetWeight(w: map<Simplex, real>, s: Simplex): real
    requires FacetsStored(w, s) && s.Dim() >= 0
  {
    FacetCount(s);
    WeightsOfHas(w, s.Facets());
    Extrema.MaxReal(WeightsOf(w, s.Facets()))
  }

  /** The largest facet weight is the weight of some facet, and no facet weighs more. */
  lemma MaxFacetWeightIsMax(w: map<Simplex, real>, s: Simplex)
    requires FacetsStored(w, s) && s.Dim() >= 0
    ensures MaxFacetWeight(w, s) in WeightsOf(w, s.Facets())
    ensures AllBelow(w, s.Facets(), MaxFacetWeight(w, s))
  {
    WeightsOfHas(w, s.Facets());
  }

  /** Every stored simplex of dimension at least 2 has all its facets stored. */
  ghost predicate FacetsComplete(w: map<Simplex, real>) {
    forall s :: s in w && s.Dim() >= 2 ==> FacetsStored(w, s)
  }

  /** Every stored simplex of dimension at least 2 weighs as much as its heaviest facet. */
  ghost predicate MaxOfFacets(w: map<Simplex, real>) {
    forall s :: s in w && s.Dim() >= 2 ==> FacetsStored(w, s) && w[s] == MaxFacetWeight(w, s)
  }

  /** `w` has the simplices of `w0`, and its vertices and edges keep their weights. */
  ghost predicate SameLowWeights(w: map<Simplex, real>, w0: map<Simplex, real>) {
    w.Keys == w0.Keys && forall s :: s in w && s.Dim() <= 1 ==> w[s] == w0[s]
  }

  /** Some stored simplex of dimension `p` has a facet that is not stored. */
  ghost predicate LevelIncomplete(w: map<Simplex, real>, p: int) {
    exists s :: s in w && s.Dim() == p && !FacetsStored(w, s)
  }

  /**
   * The levels from 2 up to `p - 1` are done: their simplices weigh as much
   * as their heaviest facet, and the vertices and edges are untouched.
   */
  ghost predicate DoneBelow(w: map<Simplex, real>, w0: map<Simplex, real>, p: int) {
    SameLowWeights(w, w0) &&
    forall s :: s in w && 2 <= s.Dim() < p ==> FacetsStored(w, s) && w[s] == MaxFacetWeight(w, s)
  }

  /** The largest facet weight depends only on the weights of the facets. */
  lemma MaxFacetFrame(w: map<Simplex, real>, w': map<Simplex, real>, s: Simplex)
    requires FacetsStored(w, s) && s.Dim() >= 0
    requires forall f :: f in s.Facets() ==> f in w' && w'[f] == w[f]
    ensures FacetsStored(w', s) && MaxFacetWeight(w', s) == MaxFacetWeight(w, s)
  {
    assert WeightsOf(w, s.Facets()) == WeightsOf(w', s.Facets());
  }

  /** A facet weight that no facet weight exceeds is the largest facet weight. */
  lemma MaxIsBound(w: map<Simplex, real>, s: Simplex, b: real)
    requires FacetsStored(w, s) && s.Dim() >= 0
    requires b in WeightsOf(w, s.Facets()) && AllBelow(w, s.Facets(), b)
    ensures b == MaxFacetWeight(w, s)
  {
    var m := MaxFacetWeight(w, s);
    MaxFacetWeightIsMax(w, s);
    var f :| f in s.Facets() && f in w && w[f] == m;
    var g :| g in s.Facets() && g in w && w[g] == b;
  }

  /**
   * `max(self._complex.get_weight(facet) for facet in s.facets)`: the
   * largest facet weight; a facet that is not stored is an error.
   */
  method FacetMax(c: FilteredComplex, s: Simplex) returns (r: Result<real, ComplexError>)
    requires c.Valid() && s.Dim() >= 0
    ensures r.Success? <==> FacetsStored(c.weights, s)
    ensures r.Success? ==> r.value == MaxFacetWeight(c.weights, s)
    ensures r.Failure? ==> r.error == NotInComplex
  {
    FacetCount(s);
    r := MaxWeightOf(c, s.Facets());
    if r.Success? {
      MaxIsBound(c.weights, s, r.value);
    }
  }

  /** `max(get_weight(f) for f in fs)` over a non-empty set of simplices: Python's `max` starts from the first element. */
  method MaxWeightOf(c: FilteredComplex, fs: set<Simplex>) returns (r: Result<real, ComplexError>)
    requires c.Valid() && fs != {}
    ensures r.Success? <==> forall f :: f in fs ==> f in c.weights
    ensures r.Success? ==> r.value in WeightsOf(c.weights, fs) && AllBelow(c.weights, fs, r.value)
    ensures r.Failure? ==> r.error == NotInComplex
  {
    var f0 := Extrema.Choose(fs);
    var x0 := c.GetWeight(f0);
    if x0.Failure? {
      return Failure(NotInComplex);
    }
    WeightOfIn(c.weights, fs, f0);
    var best := x0.value;
    var todo := fs - {f0};
    assert fs - todo == {f0};
    while todo != {}
      invariant todo <= fs
      invariant AllBelow(c.weights, fs - todo, best)
      invariant best in WeightsOf(c.weights, fs)
      decreases |todo|
    {
      var f := Extrema.Choose(todo);
      var x := c.GetWeight(f);
      if x.Failure? {
        return Failure(NotInComplex);
      }
      ghost var done := fs - todo;
      if best < x.value {
        WeightOfIn(c.weights, fs, f);
        AllBelowStep(c.weights, done, f, best, x.value);
        best := x.value;
      } else {
        AllBelowStep(c.weights, done, f, best, best);
      }
      assert fs - (todo - {f}) == done + {f};
      todo := todo - {f};
    }
    assert fs - todo == fs;
    return Success(best);
  }

  /** Every simplex of `fs` is stored in `w` with weight at most `b`. */
  ghost predicate AllBelow(w: map<Simplex, real>, fs: set<Simplex>, b: real) {
    forall f :: f in fs ==> f in w && w[f] <= b
  }

  lemma AllBelowStep(w: map<Simplex, real>, fs: set<Simplex>, f: Simplex, b: real, b': real)
    requires AllBelow(w, fs, b) && f in w && w[f] <= b' && b <= b'
    ensures AllBelow(w, fs + {f}, b')
  {
  }

  /** Simplices of dimensions other than `p` keep their weights from `w0`. */
  ghost predicate OtherLevelsKept(w: map<Simplex, real>, w0: map<Simplex, real>, p: int) {
    w.Keys == w0.Keys && forall s :: s in w && s.Dim() != p ==> w[s] == w0[s]
  }

  /** Every `p`-simplex has been given its heaviest facet's weight in `w0`. */
  ghost predicate LevelReweighted(w: map<Simplex, real>, w0: map<Simplex, real>, p: int) {
    forall s :: s in w && p >= 0 && s.Dim() == p ==> FacetsStored(w0, s) && w[s] == MaxFacetWeight(w0, s)
  }

  /**
   * One pass of the inner loop of `compute_weights`: reweights every stored
   * `p`-simplex to its heaviest facet, stopping at the first with a missing
   * facet; simplices of other dimensions keep their weights.
   */
  method ReweightLevel(c: FilteredComplex, p: int) returns (res: Outcome<ComplexError>)
    requires c.Valid() && p >= 1
    modifies c
    ensures c.Valid() && c.simplices == old(c.simplices)
    ensures OtherLevelsKept(c.weights, old(c.weights), p)
    ensures res.Fail? ==> res.error == NotInComplex && LevelIncomplete(old(c.weights), p)
    ensures res.Pass? ==> LevelReweighted(c.weights, old(c.weights), p)
  {
    ghost var w0 := c.weights;
    var level := Bucket(c.simplices, p);
    BucketIsDimensionSlice(c.simplices, p);
    assert forall s :: s in level <==> s in w0 && s.Dim() == p;
    var todo := level;
    ghost var done: set<Simplex> := {};
    while todo != {}
      invariant todo <= level && done == level - todo
      invariant c.Valid() && c.simplices == old(c.simplices) && c.weights.Keys == w0.Keys
      invariant Untouched(c.weights, w0, done) && Reweighted(c.weights, w0, done)
      decreases |todo|
    {
      var s := Extrema.Choose(todo);
      var ok := ReweightOne(c, s, p, w0, done);
      if !ok {
        UntouchedOutsideLevel(c.weights, w0, done, p);
        return Fail(NotInComplex);
      }
      Extrema.Moved(level, todo, done, s);
      done := done + {s};
      todo := todo - {s};
    }
    LevelFinished(c.weights, w0, level, p);
    return Pass;
  }

  /**
   * The body of that loop for one `p`-simplex `s`: its largest facet weight,
   * read from the weights of `w0` that are still in place, becomes its
   * weight; a missing facet leaves everything as it was.
   */
  method ReweightOne(c: FilteredComplex, s: Simplex, p: int, ghost w0: map<Simplex, real>, ghost done: set<Simplex>)
    returns (ok: bool)
    requires c.Valid() && c.weights.Keys == w0.Keys && Untouched(c.weights, w0, done) && Reweighted(c.weights, w0, done)
    requires s in c.weights && s.Dim() == p && p >= 1 && s !in done
    requires forall t :: t in done ==> t.Dim() == p
    modifies c
    ensures c.Valid() && c.simplices == old(c.simplices) && c.weights.Keys == w0.Keys
    ensures !ok ==> !FacetsStored(w0, s) && c.weights == old(c.weights)
    ensures ok ==> Untouched(c.weights, w0, done + {s}) && Reweighted(c.weights, w0, done + {s})
  {
    FacetsUntouched(c.weights, w0, done, s, p);
    var x := FacetMax(c, s);
    if x.Failure? {
      return false;
    }
    MaxFacetFrame(c.weights, w0, s);
    ReweightedStep(c.weights, w0, done, s);
    var _ := c.Reweight(s, x.value);
    return true;
  }

  /** Part way through level `p`, the other levels still have their weights. */
  lemma UntouchedOutsideLevel(w: map<Simplex, real>, w0: map<Simplex, real>, done: set<Simplex>, p: int)
    requires w.Keys == w0.Keys && Untouched(w, w0, done)
    requires forall t :: t in done ==> t.Dim() == p
    ensures OtherLevelsKept(w, w0, p)
  {
  }

  /** A level all of whose simplices are done is reweighted, and the other levels are untouched. */
  lemma LevelFinished(w: map<Simplex, real>, w0: map<Simplex, real>, level: set<Simplex>, p: int)
    requires w.Keys == w0.Keys && Untouched(w, w0, level) && Reweighted(w, w0, level)
    requires forall s :: s in level <==> s in w0 && s.Dim() == p
    ensures OtherLevelsKept(w, w0, p) && LevelReweighted(w, w0, p)
  {
  }

  /** Outside `done`, `w` still has the weights of `w0`. */
  ghost predicate Untouched(w: map<Simplex, real>, w0: map<Simplex, real>, done: set<Simplex>) {
    forall s :: s in w && s !in done ==> s in w0 && w[s] == w0[s]
  }

  /** Each simplex of `done` has been given its heaviest facet's weight in `w0`. */
  ghost predicate Reweighted(w: map<Simplex, real>, w0: map<Simplex, real>, done: set<Simplex>) {
    forall s :: s in done ==> s in w && s.Dim() >= 0 && FacetsStored(w0, s) && w[s] == MaxFacetWeight(w0, s)
  }

  /** The facets of a simplex of the level being reweighted still have their old weights. */
  lemma FacetsUntouched(w: map<Simplex, real>, w0: map<Simplex, real>, done: set<Simplex>, s: Simplex, p: int)
    requires w.Keys == w0.Keys && Untouched(w, w0, done) && s.Dim() == p
    requires forall t :: t in done ==> t.Dim() == p
    ensures forall f :: f in s.Facets() ==> (f in w <==> f in w0)
    ensures forall f :: f in s.Facets() && f in w ==> w[f] == w0[f]
    ensures FacetsStored(w, s) <==> FacetsStored(w0, s)
  {
    FacetCount(s);
  }

  lemma ReweightedStep(w: map<Simplex, real>, w0: map<Simplex, real>, done: set<Simplex>, s: Simplex)
    requires w.Keys == w0.Keys && Untouched(w, w0, done) && Reweighted(w, w0, done)
    requires s in w && s !in done && FacetsStored(w0, s) && s.Dim() >= 0
    ensures w[s := MaxFacetWeight(w0, s)].Keys == w0.Keys
    ensures Untouched(w[s := MaxFacetWeight(w0, s)], w0, done + {s})
    ensures Reweighted(w[s := MaxFacetWeight(w0, s)], w0, done + {s})
  {
  }

  /** Finishing level `p` extends the finished levels by one. */
  lemma LevelStep(w: map<Simplex, real>, w': map<Simplex, real>, w0: map<Simplex, real>, p: int)
    requires p >= 2 && DoneBelow(w, w0, p)
    requires OtherLevelsKept(w', w, p) && LevelReweighted(w', w, p)
    ensures DoneBelow(w', w0, p + 1)
  {
    forall s | s in w' && 2 <= s.Dim() < p + 1
      ensures FacetsStored(w', s) && w'[s] == MaxFacetWeight(w', s)
    {
      FacetCount(s);
      MaxFacetFrame(w, w', s);
    }
  }

  /** A missing facet at some level means the facets are not complete, whatever the weights. */
  lemma IncompleteLevel(w: map<Simplex, real>, w0: map<Simplex, real>, p: int)
    requires LevelIncomplete(w, p) && p >= 2 && w.Keys == w0.Keys
    ensures !FacetsComplete(w0)
  {
    var s :| s in w && s.Dim() == p && !FacetsStored(w, s);
    assert s in w0 && !FacetsStored(w0, s);
  }

  /**
   * `compute_weights` (the loop over levels 2 to `dim`): afterwards every
   * simplex of dimension at least 2 weighs as much as its heaviest facet
   * and the vertices and edges keep their weights. `dim` of an empty
   * complex, and a missing facet, are errors; after the latter the levels
   * below it have already been reweighted.
   */
  method ReweightByFacets(c: FilteredComplex) returns (res: Outcome<ComplexError>)
    requires c.Valid()
    modifies c
    ensures c.Valid() && c.simplices == old(c.simplices)
    ensures res.Fail? ==> res.error == NoSimplices || res.error == NotInComplex
    ensures res == Fail(NoSimplices) <==> old(c.weights) == map[]
    ensures res == Fail(NotInComplex) <==> old(c.weights) != map[] && !FacetsComplete(old(c.weights))
    ensures res.Pass? ==> SameLowWeights(c.weights, old(c.weights)) && MaxOfFacets(c.weights)
  {
    if c.simplices == map[] {
      return Fail(NoSimplices);
    }
    ghost var w0 := c.weights;
    var top := c.Dim();
    var p := 2;
    while p <= top
      invariant 2 <= p && c.Valid() && c.simplices == old(c.simplices)
      invariant DoneBelow(c.weights, w0, p)
      decreases top - p
    {
      ghost var w := c.weights;
      res := ReweightLevel(c, p);
      if res.Fail? {
        IncompleteLevel(w, w0, p);
        return;
      }
      LevelStep(w, c.weights, w0, p);
      p := p + 1;
    }
    assert forall s :: s in c.weights ==> s.Dim() < p;
    return Pass;
  }

  /**
   * The weights after `compute_weights` are determined: two weightings of
   * the same simplices that agree on vertices and edges and both give every
   * higher simplex its heaviest facet's weight are equal.
   */
  lemma {:induction false} FacetMaxDetermined(w: map<Simplex, real>, w': map<Simplex, real>)
    requires w.Keys == w'.Keys && MaxOfFacets(w) && MaxOfFacets(w')
    requires forall s :: s in w && s.Dim() <= 1 ==> w[s] == w'[s]
    ensures w == w'
  {
    forall s | s in w ensures w[s] == w'[s] {
      AgreeAt(w, w', s);
    }
  }

  lemma {:induction false} AgreeAt(w: map<Simplex, real>, w': map<Simplex, real>, s: Simplex)
    requires w.Keys == w'.Keys && MaxOfFacets(w) && MaxOfFacets(w')
    requires forall s :: s in w && s.Dim() <= 1 ==> w[s] == w'[s]
    requires s in w
    ensures w[s] == w'[s]
    decreases |s.vertices|
  {
    if s.Dim() >= 2 {
      FacetCount(s);
      forall f | f in s.Facets() ensures f in w' && w'[f] == w[f] {
        AgreeAt(w, w', f);
      }
      MaxFacetFrame(w, w', s);
    }
  }

  /**
   * Weights taken from the heaviest facet make a filtration, provided every
   * edge has its vertices stored and weighs no less than they do.
   */
  lemma FacetMaxIsFiltration(w: map<Simplex, real>)
    requires MaxOfFacets(w)
    requires forall e :: e in w && e.Dim() == 1 ==> FacetsFit(w, e, w[e])
    ensures Filtration(w)
  {
    forall s | s in w && s.Dim() >= 2 ensures FacetsFit(w, s, w[s]) {
      MaxFacetWeightIsMax(w, s);
    }
  }
}
