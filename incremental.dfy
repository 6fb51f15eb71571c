/**
 * Complexes/VR/Expansion/Incremental.py: the incremental Vietoris-Rips
 * expansion. From each vertex a depth-first search over a stack adds the
 * vertex and, up to dimension `dim`, every clique of the edge graph whose
 * largest vertex it is, each built by adding ever smaller common lower
 * neighbours. The new complex is then weighted (edges by the metric, higher
 * simplices by their heaviest facet) and replaces the builder's complex.
 */
module IncrementalExpansion {
  import opened Wrappers
  import opened Simplices
  import opened FilteredComplexes
  import opened DimIndex
  import opened Cliques
  import opened FacetWeights
  import opened VRBase
  import opened InductiveExpansion
  import Extrema

  /**
   * What `add_cofaces(level, tau, N)` adds when `N` holds the common lower
   * neighbours of the clique `tau`: `tau` itself and, up to dimension
   * `level`, `tau` joined with each clique of those neighbours.
   */
  ghost function Gen(w: map<Simplex, real>, tau: Simplex, level: int): set<Simplex> {
    {tau} + set T | T <= CommonLower(w, tau) && Joins(w, tau, level, T) :: Simplex(tau.vertices + T)
  }

  /** A stack entry of `add_cofaces`: a non-empty clique and its common lower neighbours. */
  ghost predicate Good(w: map<Simplex, real>, e: (Simplex, set<nat>)) {
    e.0.vertices != {} && IsClique(w, e.0.vertices) && e.1 == CommonLower(w, e.0)
  }

  /** What the cofaces of `tau` through the neighbours in `D` generate. */
  ghost function Children(w: map<Simplex, real>, tau: Simplex, D: set<nat>, level: int): set<Simplex> {
    set n, t | n in D && t in Gen(w, tau.Plus(n), level) :: t
  }

  /** What the entries of a stack generate. */
  ghost function StackGen(w: map<Simplex, real>, stack: seq<(Simplex, set<nat>)>, level: int): set<Simplex>
    decreases |stack|
  {
    if stack == [] then {}
    else StackGen(w, stack[..|stack| - 1], level) + Gen(w, stack[|stack| - 1].0, level)
  }

  /** Every entry of the stack is a clique with its common lower neighbours. */
  ghost predicate AllGood(w: map<Simplex, real>, stack: seq<(Simplex, set<nat>)>) {
    forall i :: 0 <= i < |stack| ==> Good(w, stack[i])
  }

  /** A bound on the entries an entry with `m` neighbours can still put on the stack, itself included. */
  function Pot(m: nat): (r: nat)
    ensures r >= 1
  {
    if m == 0 then 1 else 1 + Times(m, Pot(m - 1))
  }

  /** `k * p`, by repeated addition (keeps the termination arithmetic linear). */
  function Times(k: nat, p: nat): (r: nat)
    ensures k >= 1 ==> r >= p
  {
    if k == 0 then 0 else p + Times(k - 1, p)
  }

  lemma {:induction false} PotMono(a: nat, b: nat)
    requires a <= b
    ensures Pot(a) <= Pot(b)
    decreases b
  {
    if a < b {
      PotMono(a, b - 1);
    }
  }

  /**
   * The termination measure of the stack loop, over bounds on the
   * neighbour counts of the stack's entries.
   */
  function SumPot(sizes: seq<nat>): nat
    decreases |sizes|
  {
    if sizes == [] then 0 else SumPot(sizes[..|sizes| - 1]) + Pot(sizes[|sizes| - 1])
  }

  /** `sizes` bounds the neighbour count of each entry of `stack`. */
  predicate Bounded(stack: seq<(Simplex, set<nat>)>, sizes: seq<nat>)
    decreases |stack|
  {
    |stack| == |sizes| &&
    (stack == [] || (Bounded(stack[..|stack| - 1], sizes[..|sizes| - 1]) && |stack[|stack| - 1].1| <= sizes[|sizes| - 1]))
  }

  /** `k` copies of `x`. */
  function Repeat(x: nat, k: nat): (r: seq<nat>)
    ensures |r| == k && forall i :: 0 <= i < k ==> r[i] == x
  {
    if k == 0 then [] else Repeat(x, k - 1) + [x]
  }

  lemma Popped(w: map<Simplex, real>, stack: seq<(Simplex, set<nat>)>, level: int)
    requires stack != []
    ensures StackGen(w, stack, level) == StackGen(w, stack[..|stack| - 1], level) + Gen(w, stack[|stack| - 1].0, level)
  {
  }

  lemma Pushed(w: map<Simplex, real>, stack: seq<(Simplex, set<nat>)>, e: (Simplex, set<nat>), level: int)
    ensures StackGen(w, stack + [e], level) == StackGen(w, stack, level) + Gen(w, e.0, level)
  {
    assert (stack + [e])[..|stack|] == stack;
  }

  /** The measure of a concatenation is the sum of the measures. */
  lemma {:induction false} SumPotAppend(a: seq<nat>, b: seq<nat>)
    ensures SumPot(a + b) == SumPot(a) + SumPot(b)
    decreases |b|
  {
    if b != [] {
      var b' := b[..|b| - 1];
      assert (a + b)[..|a + b| - 1] == a + b';
      SumPotAppend(a, b');
    } else {
      assert a + b == a;
    }
  }

  lemma {:induction false} SumPotRepeat(x: nat, k: nat)
    ensures SumPot(Repeat(x, k)) == Times(k, Pot(x))
  {
    if k > 0 {
      SumPotRepeat(x, k - 1);
      TimesLast(k, Pot(x));
    }
  }

  lemma {:induction false} TimesLast(k: nat, p: nat)
    requires k >= 1
    ensures Times(k, p) == Times(k - 1, p) + p
  {
  }

  lemma {:induction false} TimesMono(j: nat, k: nat, p: nat)
    requires j <= k
    ensures Times(j, p) <= Times(k, p)
    decreases k
  {
    if j < k {
      TimesMono(j, k - 1, p);
    }
  }

  /** Every entry of `pushed` keeps fewer than `m` neighbours. */
  predicate Fewer(pushed: seq<(Simplex, set<nat>)>, m: nat)
    decreases |pushed|
  {
    pushed == [] || (Fewer(pushed[..|pushed| - 1], m) && |pushed[|pushed| - 1].1| < m)
  }

  lemma FewerAppend(pushed: seq<(Simplex, set<nat>)>, e: (Simplex, set<nat>), m: nat)
    requires Fewer(pushed, m) && |e.1| < m
    ensures Fewer(pushed + [e], m)
  {
    assert (pushed + [e])[..|pushed|] == pushed;
  }

  /**
   * Popping the bound `k` of the top entry and pushing `j <= k` bounds of
   * `k - 1` lowers the measure: what makes the stack loop end.
   */
  lemma PopPush(sizes: seq<nat>, j: nat)
    requires sizes != [] && j <= sizes[|sizes| - 1]
    ensures var k := sizes[|sizes| - 1];
      k >= 1 ==> SumPot(sizes[..|sizes| - 1] + Repeat(k - 1, j)) < SumPot(sizes)
    ensures j == 0 ==> SumPot(sizes[..|sizes| - 1]) < SumPot(sizes)
  {
    var k := sizes[|sizes| - 1];
    if k >= 1 {
      SumPotAppend(sizes[..|sizes| - 1], Repeat(k - 1, j));
      SumPotRepeat(k - 1, j);
      TimesMono(j, k, Pot(k - 1));
    }
  }

  /**
   * Replacing the top entry by at most `k` entries with fewer than `k`
   * neighbours keeps the bounds, with `k - 1` for each new entry.
   */
  lemma {:induction false} BoundedPush(rest: seq<(Simplex, set<nat>)>, sizes: seq<nat>, pushed: seq<(Simplex, set<nat>)>, k: nat)
    requires Bounded(rest, sizes) && k >= 1 && Fewer(pushed, k)
    ensures Bounded(rest + pushed, sizes + Repeat(k - 1, |pushed|))
    decreases |pushed|
  {
    if pushed == [] {
      assert rest + pushed == rest && sizes + Repeat(k - 1, 0) == sizes;
    } else {
      var n := |pushed| - 1;
      var p' := pushed[..n];
      BoundedPush(rest, sizes, p', k);
      BoundedSnoc(rest + p', sizes + Repeat(k - 1, n), pushed[n], k - 1);
      assert rest + pushed == rest + p' + [pushed[n]];
      assert sizes + Repeat(k - 1, n + 1) == sizes + Repeat(k - 1, n) + [k - 1];
    }
  }

  lemma BoundedSnoc(stack: seq<(Simplex, set<nat>)>, sizes: seq<nat>, e: (Simplex, set<nat>), x: nat)
    requires Bounded(stack, sizes) && |e.1| <= x
    ensures Bounded(stack + [e], sizes + [x])
  {
    assert (stack + [e])[..|stack|] == stack;
    assert (sizes + [x])[..|sizes|] == sizes;
  }

  /** Fewer than `m` is fewer than any larger bound. */
  lemma {:induction false} FewerMono(pushed: seq<(Simplex, set<nat>)>, m: nat, k: nat)
    requires Fewer(pushed, m) && m <= k
    ensures Fewer(pushed, k)
    decreases |pushed|
  {
    if pushed != [] {
      FewerMono(pushed[..|pushed| - 1], m, k);
    }
  }

  /** Elements of `CommonLower(w, tau)` lie below every vertex of `tau`, so they are not vertices of it. */
  lemma BelowAll(w: map<Simplex, real>, tau: Simplex, u: nat)
    requires u in CommonLower(w, tau)
    ensures forall v :: v in tau.vertices ==> u < v
    ensures u !in tau.vertices
  {
    forall v | v in tau.vertices ensures u < v {
      assert u in LowerNbrs(w, v);
    }
  }

  /**
   * The entry pushed for a neighbour `n` is again a clique with its common
   * lower neighbours, one dimension higher, with fewer neighbours.
   */
  lemma ChildGood(w: map<Simplex, real>, tau: Simplex, M: set<nat>, n: nat)
    requires Good(w, (tau, M)) && n in M
    ensures Good(w, (tau.Plus(n), M * LowerNbrs(w, n)))
    ensures tau.Plus(n).Dim() == tau.Dim() + 1
    ensures |M * LowerNbrs(w, n)| < |M|
  {
    CofaceIsClique(w, tau, n);
    var t := tau.Plus(n);
    forall u ensures u in CommonLower(w, t) <==> u in M * LowerNbrs(w, n) {
    }
    assert M * LowerNbrs(w, n) <= M - {n};
    SubsetCard(M * LowerNbrs(w, n), M - {n});
  }

  /** A non-empty set of common lower neighbours joined to `tau` gives a larger simplex. */
  lemma JoinGrows(w: map<Simplex, real>, tau: Simplex, T: set<nat>)
    requires T <= CommonLower(w, tau) && T != {}
    ensures Simplex(tau.vertices + T).Dim() > tau.Dim()
  {
    var u :| u in T;
    BelowAll(w, tau, u);
    assert tau.vertices + {u} <= tau.vertices + T;
    SubsetCard(tau.vertices + {u}, tau.vertices + T);
  }

  /**
   * One step of `add_cofaces`: what an entry generates is itself and, below
   * the level, what its cofaces generate.
   */
  lemma GenSplit(w: map<Simplex, real>, tau: Simplex, M: set<nat>, level: int)
    requires Good(w, (tau, M))
    ensures tau.Dim() >= level ==> Gen(w, tau, level) == {tau}
    ensures tau.Dim() < level ==> Gen(w, tau, level) == {tau} + Children(w, tau, M, level)
  {
    if tau.Dim() >= level {
      GenAtLevel(w, tau, M, level);
    } else {
      GenBelowLevel(w, tau, M, level);
    }
  }

  /** At the level nothing joins: a non-empty join is larger than `tau`. */
  lemma GenAtLevel(w: map<Simplex, real>, tau: Simplex, M: set<nat>, level: int)
    requires Good(w, (tau, M)) && tau.Dim() >= level
    ensures Gen(w, tau, level) == {tau}
  {
    forall T | Joins(w, tau, level, T) ensures T == {} {
      if T != {} {
        JoinGrows(w, tau, T);
        assert false;
      }
    }
    assert tau.vertices + {} == tau.vertices;
  }

  /** Below the level, the joins of `tau` are `tau` and the joins of its cofaces. */
  lemma GenBelowLevel(w: map<Simplex, real>, tau: Simplex, M: set<nat>, level: int)
    requires Good(w, (tau, M)) && tau.Dim() < level
    ensures Gen(w, tau, level) == {tau} + Children(w, tau, M, level)
  {
    GenIntoChildren(w, tau, M, level);
    ChildrenIntoGen(w, tau, M, level);
  }

  lemma GenIntoChildren(w: map<Simplex, real>, tau: Simplex, M: set<nat>, level: int)
    requires Good(w, (tau, M)) && tau.Dim() < level
    ensures Gen(w, tau, level) <= {tau} + Children(w, tau, M, level)
  {
    forall t | t in Gen(w, tau, level) && t != tau ensures t in Children(w, tau, M, level) {
      var T := GenWitness(w, tau, level, t);
      GenDown(w, tau, M, level, T);
    }
  }

  lemma ChildrenIntoGen(w: map<Simplex, real>, tau: Simplex, M: set<nat>, level: int)
    requires Good(w, (tau, M)) && tau.Dim() < level
    ensures Children(w, tau, M, level) <= Gen(w, tau, level)
  {
    forall t | t in Children(w, tau, M, level) ensures t in Gen(w, tau, level) {
      var n := ChildWitness(w, tau, M, level, t);
      CofaceGenInGen(w, tau, M, level, n, t);
    }
  }

  /** What the coface `tau + n` generates, `tau` generates. */
  lemma CofaceGenInGen(w: map<Simplex, real>, tau: Simplex, M: set<nat>, level: int, n: nat, t: Simplex)
    requires Good(w, (tau, M)) && tau.Dim() < level && n in M && t in Gen(w, tau.Plus(n), level)
    ensures t in Gen(w, tau, level)
  {
    ChildGood(w, tau, M, n);
    if t == tau.Plus(n) {
      assert tau.Plus(n).vertices + {} == tau.Plus(n).vertices;
      GenUp(w, tau, M, level, n, {});
    } else {
      var T' := GenWitness(w, tau.Plus(n), level, t);
      GenUp(w, tau, M, level, n, T');
    }
  }

  /** A simplex other than `tau` that `tau` generates is `tau` joined with a non-empty `T`. */
  lemma GenWitness(w: map<Simplex, real>, tau: Simplex, level: int, t: Simplex) returns (T: set<nat>)
    requires t in Gen(w, tau, level) && t != tau
    ensures Joins(w, tau, level, T) && t == Simplex(tau.vertices + T) && T != {}
  {
    T :| Joins(w, tau, level, T) && t == Simplex(tau.vertices + T);
  }

  /** What the cofaces generate, one of them generates. */
  lemma ChildWitness(w: map<Simplex, real>, tau: Simplex, D: set<nat>, level: int, t: Simplex) returns (n: nat)
    requires t in Children(w, tau, D, level)
    ensures n in D && t in Gen(w, tau.Plus(n), level)
  {
    n :| n in D && t in Gen(w, tau.Plus(n), level);
  }

  /** `tau` joined with the clique `T` of its common lower neighbours, within the level. */
  ghost predicate Joins(w: map<Simplex, real>, tau: Simplex, level: int, T: set<nat>) {
    T <= CommonLower(w, tau) && IsClique(w, tau.vertices + T) && Simplex(tau.vertices + T).Dim() <= level
  }

  /** A join other than `tau` itself comes from the coface through its largest added vertex. */
  lemma GenDown(w: map<Simplex, real>, tau: Simplex, M: set<nat>, level: int, T: set<nat>)
    requires Good(w, (tau, M)) && Joins(w, tau, level, T) && T != {}
    ensures Simplex(tau.vertices + T) in Children(w, tau, M, level)
  {
    var n := Extrema.Max(T);
    JoinsDown(w, tau, level, T, n);
    InGen(w, tau.Plus(n), level, T - {n});
  }

  /** Taking the largest added vertex `n` out of a join of `tau` gives a join of `tau + n`. */
  lemma JoinsDown(w: map<Simplex, real>, tau: Simplex, level: int, T: set<nat>, n: nat)
    requires tau.vertices != {} && Joins(w, tau, level, T)
    requires n in T && forall u :: u in T ==> u <= n
    ensures Joins(w, tau.Plus(n), level, T - {n})
    ensures tau.Plus(n).vertices + (T - {n}) == tau.vertices + T
  {
    JoinUnder(w, tau, T, n);
    assert tau.Plus(n).vertices + (T - {n}) == tau.vertices + T;
  }

  /** The vertices of a join below its largest added vertex `n` are common lower neighbours of `tau + n`. */
  lemma JoinUnder(w: map<Simplex, real>, tau: Simplex, T: set<nat>, n: nat)
    requires tau.vertices != {} && T <= CommonLower(w, tau) && IsClique(w, tau.vertices + T)
    requires n in T && forall u :: u in T ==> u <= n
    ensures T - {n} <= CommonLower(w, tau.Plus(n))
  {
    forall u | u in T - {n} ensures u in CommonLower(w, tau.Plus(n)) {
      assert Simplex({u, n}) in w;
      assert u in LowerNbrs(w, n);
    }
  }

  /** What a coface generates, `tau` generates too. */
  lemma GenUp(w: map<Simplex, real>, tau: Simplex, M: set<nat>, level: int, n: nat, T': set<nat>)
    requires Good(w, (tau, M)) && n in M && Joins(w, tau.Plus(n), level, T')
    ensures Simplex(tau.Plus(n).vertices + T') in Gen(w, tau, level)
  {
    JoinsUp(w, tau, level, n, T');
    InGen(w, tau, level, T' + {n});
  }

  lemma InGen(w: map<Simplex, real>, tau: Simplex, level: int, T: set<nat>)
    requires Joins(w, tau, level, T)
    ensures Simplex(tau.vertices + T) in Gen(w, tau, level)
  {
  }

  /** Adding the neighbour `n` back to a join of `tau + n` gives a join of `tau`. */
  lemma JoinsUp(w: map<Simplex, real>, tau: Simplex, level: int, n: nat, T': set<nat>)
    requires tau.vertices != {} && n in CommonLower(w, tau) && Joins(w, tau.Plus(n), level, T')
    ensures Joins(w, tau, level, T' + {n})
    ensures tau.vertices + (T' + {n}) == tau.Plus(n).vertices + T'
  {
    assert tau.vertices + (T' + {n}) == tau.Plus(n).vertices + T';
    CommonLowerShrinks(w, tau, n);
  }

  /** The common lower neighbours of a coface are common lower neighbours of the face. */
  lemma CommonLowerShrinks(w: map<Simplex, real>, tau: Simplex, n: nat)
    requires tau.vertices != {}
    ensures CommonLower(w, tau.Plus(n)) <= CommonLower(w, tau)
  {
  }

  lemma ChildrenStep(w: map<Simplex, real>, tau: Simplex, D: set<nat>, n: nat, level: int)
    ensures Children(w, tau, D + {n}, level) == Children(w, tau, D, level) + Gen(w, tau.Plus(n), level)
  {
  }

  /**
   * The `for neighbour in current_neighbours` loop: pushes, for each common
   * lower neighbour, the coface and the neighbours it keeps.
   */
  method PushCofaces(c: FilteredComplex, tau: Simplex, M: set<nat>, stack: seq<(Simplex, set<nat>)>, level: int, ghost w: map<Simplex, real>)
    returns (stack': seq<(Simplex, set<nat>)>, ghost pushed: seq<(Simplex, set<nat>)>)
    requires c.Valid() && SameEdges(c.weights, w) && Good(w, (tau, M)) && AllGood(w, stack)
    ensures stack' == stack + pushed
    ensures AllGood(w, stack')
    ensures StackGen(w, stack', level) == StackGen(w, stack, level) + Children(w, tau, M, level)
    ensures |pushed| == |M| && Fewer(pushed, |M|)
  {
    stack' := stack;
    pushed := [];
    var todo := M;
    ghost var done: set<nat> := {};
    while todo != {}
      invariant todo <= M && done == M - todo
      invariant stack' == stack + pushed
      invariant AllGood(w, stack')
      invariant StackGen(w, stack', level) == StackGen(w, stack, level) + Children(w, tau, done, level)
      invariant |pushed| == |done| && Fewer(pushed, |M|)
      decreases |todo|
    {
      var n := Extrema.Choose(todo);
      var e;
      stack', e := PushCoface(c, tau, M, n, stack', level, w);
      FewerAppend(pushed, e, |M|);
      AppendAssoc(stack, pushed, e);
      pushed := pushed + [e];
      ChildrenStep(w, tau, done, n, level);
      UnionAssoc(StackGen(w, stack, level), Children(w, tau, done, level), Gen(w, tau.Plus(n), level));
      Extrema.Moved(M, todo, done, n);
      done := done + {n};
      todo := todo - {n};
    }
    Extrema.Exhausted(M, todo, done);
  }

  /** The entry pushed for `n` is a good entry with fewer neighbours. */
  lemma ChildEntry(cw: map<Simplex, real>, w: map<Simplex, real>, tau: Simplex, M: set<nat>, n: nat, lower: set<nat>)
    requires SameEdges(cw, w) && Good(w, (tau, M)) && n in M && lower == LowerNbrs(cw, n)
    ensures Good(w, (tau.Plus(n), M * lower))
    ensures |M * lower| < |M|
  {
    assert lower == LowerNbrs(w, n) by {
      SameEdgesSameNeighbours(cw, w);
    }
    ChildGood(w, tau, M, n);
  }

  lemma PushedGood(w: map<Simplex, real>, stack: seq<(Simplex, set<nat>)>, e: (Simplex, set<nat>))
    requires AllGood(w, stack) && Good(w, e)
    ensures AllGood(w, stack + [e])
  {
    forall i | 0 <= i < |stack| + 1 ensures Good(w, (stack + [e])[i]) {
      if i < |stack| {
        assert (stack + [e])[i] == stack[i];
      }
    }
  }

  lemma AppendAssoc<T>(a: seq<T>, b: seq<T>, e: T)
    ensures a + b + [e] == a + (b + [e])
  {
  }

  lemma UnionAssoc<T>(a: set<T>, b: set<T>, c: set<T>)
    ensures a + b + c == a + (b + c)
  {
  }

  /** One pass of the neighbour loop: pushes the coface through `n` and the neighbours it keeps. */
  method PushCoface(c: FilteredComplex, tau: Simplex, M: set<nat>, n: nat, stack: seq<(Simplex, set<nat>)>, level: int, ghost w: map<Simplex, real>)
    returns (stack': seq<(Simplex, set<nat>)>, e: (Simplex, set<nat>))
    requires c.Valid() && SameEdges(c.weights, w) && Good(w, (tau, M)) && AllGood(w, stack) && n in M
    ensures stack' == stack + [e] && e.0 == tau.Plus(n) && |e.1| < |M|
    ensures AllGood(w, stack')
    ensures StackGen(w, stack', level) == StackGen(w, stack, level) + Gen(w, tau.Plus(n), level)
  {
    var lower := LowerNeighbours(c, n);
    e := (tau.Plus(n), M * lower);
    stack' := stack + [e];
    ChildEntry(c.weights, w, tau, M, n, lower);
    PushedGood(w, stack, e);
    Pushed(w, stack, e, level);
  }

  /** Adding a clique keeps the edge graph: a two-vertex clique is already an edge. */
  lemma SameEdgesAfterAdd(cw: map<Simplex, real>, w: map<Simplex, real>, t: Simplex)
    requires SameEdges(cw, w) && IsClique(w, t.vertices)
    ensures SameEdges(cw[t := 0.0], w)
  {
    if t.Dim() == 1 {
      PairCliqueIsEdge(w, t);
    }
  }

  /**
   * `add_cofaces(level, simplex, N)`: the stack loop. Every generated
   * simplex enters the new complex `nc` with weight 0. The edges are read
   * from `c`, which may be `nc` itself; they are those of `w` throughout.
   */
  method AddCofaces(c: FilteredComplex, nc: FilteredComplex, level: int, simplex: Simplex, N: set<nat>, ghost w: map<Simplex, real>)
    requires c.Valid() && nc.Valid() && !nc.checkValid && SameEdges(c.weights, w) && Good(w, (simplex, N))
    modifies nc
    ensures c.Valid() && nc.Valid() && SameEdges(c.weights, w)
    ensures nc.weights == Override(old(nc.weights), Gen(w, simplex, level), 0.0)
  {
    ghost var nw0 := nc.weights;
    var stack := [(simplex, N)];
    ghost var done: set<Simplex> := {};
    ghost var sizes: seq<nat> := [|N|];
    Start(w, simplex, N, level, nw0);
    Walk(c, nc, stack, level, w, nw0, done, simplex, sizes);
  }

  /** The state before the first visit: one good entry on the stack, nothing done. */
  lemma Start(w: map<Simplex, real>, simplex: Simplex, N: set<nat>, level: int, nw0: map<Simplex, real>)
    requires Good(w, (simplex, N))
    ensures AllGood(w, [(simplex, N)]) && Bounded([(simplex, N)], [|N|])
    ensures {} + StackGen(w, [(simplex, N)], level) == Gen(w, simplex, level)
    ensures nw0 == Override(nw0, {}, 0.0)
  {
    assert StackGen(w, [(simplex, N)], level) == Gen(w, simplex, level) by {
      Pushed(w, [], (simplex, N), level);
      assert [] + [(simplex, N)] == [(simplex, N)];
    }
    assert Bounded([(simplex, N)], [|N|]) by {
      assert [(simplex, N)][..0] == [] && [|N|][..0] == [];
    }
    OverrideNothing(nw0, 0.0);
  }

  /** Overriding no simplex changes no weight. */
  lemma OverrideNothing(m: map<Simplex, real>, x: real)
    ensures m == Override(m, {}, x)
  {
    var r := Override(m, {}, x);
    assert r.Keys == m.Keys;
    assert forall s :: s in r ==> r[s] == m[s];
  }

  /** The loop of `AddCofaces`: visits the top entry until the stack is empty. */
  method Walk(c: FilteredComplex, nc: FilteredComplex, stack0: seq<(Simplex, set<nat>)>, level: int,
              ghost w: map<Simplex, real>, ghost nw0: map<Simplex, real>, ghost done0: set<Simplex>, ghost simplex: Simplex,
              ghost sizes0: seq<nat>)
    requires AllGood(w, stack0) && Bounded(stack0, sizes0)
    requires done0 + StackGen(w, stack0, level) == Gen(w, simplex, level)
    requires c.Valid() && nc.Valid() && !nc.checkValid && SameEdges(c.weights, w)
    requires nc.weights == Override(nw0, done0, 0.0)
    modifies nc
    ensures c.Valid() && nc.Valid() && SameEdges(c.weights, w)
    ensures nc.weights == Override(nw0, Gen(w, simplex, level), 0.0)
  {
    var stack := stack0;
    ghost var done := done0;
    ghost var sizes := sizes0;
    while stack != []
      invariant AllGood(w, stack) && Bounded(stack, sizes)
      invariant done + StackGen(w, stack, level) == Gen(w, simplex, level)
      invariant c.Valid() && nc.Valid() && !nc.checkValid && SameEdges(c.weights, w)
      invariant nc.weights == Override(nw0, done, 0.0)
      decreases SumPot(sizes)
    {
      stack, done, sizes := VisitTop(c, nc, stack, level, w, nw0, done, simplex, sizes);
    }
    assert StackGen(w, stack, level) == {};
    UnionEmpty(done, StackGen(w, stack, level), Gen(w, simplex, level));
  }

  /** Emptying the stack leaves `done` equal to the whole generated set. */
  lemma UnionEmpty<T>(a: set<T>, b: set<T>, c: set<T>)
    requires a + b == c && b == {}
    ensures a == c
  {
  }

  /**
   * One pass of that loop: pops the top entry, adds its simplex and, below
   * the level, pushes its cofaces.
   */
  method VisitTop(c: FilteredComplex, nc: FilteredComplex, stack: seq<(Simplex, set<nat>)>, level: int,
                  ghost w: map<Simplex, real>, ghost nw0: map<Simplex, real>, ghost done: set<Simplex>, ghost simplex: Simplex,
                  ghost sizes: seq<nat>)
    returns (stack': seq<(Simplex, set<nat>)>, ghost done': set<Simplex>, ghost sizes': seq<nat>)
    requires stack != [] && AllGood(w, stack) && Bounded(stack, sizes)
    requires done + StackGen(w, stack, level) == Gen(w, simplex, level)
    requires c.Valid() && nc.Valid() && !nc.checkValid && SameEdges(c.weights, w)
    requires nc.weights == Override(nw0, done, 0.0)
    modifies nc
    ensures AllGood(w, stack')
    ensures done' + StackGen(w, stack', level) == Gen(w, simplex, level)
    ensures c.Valid() && nc.Valid() && !nc.checkValid && SameEdges(c.weights, w)
    ensures nc.weights == Override(nw0, done', 0.0)
    ensures Bounded(stack', sizes') && SumPot(sizes') < SumPot(sizes)
  {
    var top := stack[|stack| - 1];
    var rest := stack[..|stack| - 1];
    PoppedGood(w, stack);
    Popped(w, stack, level);
    MarkVisited(c, nc, top.0, w, nw0, done);
    ghost var pushed;
    stack', pushed := Descend(c, top.0, top.1, rest, level, w);
    ghost var j;
    j, sizes' := StackBounds(stack, sizes, pushed);
    PopPush(sizes, j);
    VisitGen(done, StackGen(w, rest, level), Gen(w, top.0, level), top.0, StackGen(w, stack', level), Gen(w, simplex, level));
    done' := done + {top.0};
  }

  /** The bounds after popping the top entry and pushing `pushed`. */
  lemma StackBounds(stack: seq<(Simplex, set<nat>)>, sizes: seq<nat>, pushed: seq<(Simplex, set<nat>)>)
    returns (j: nat, sizes': seq<nat>)
    requires stack != [] && Bounded(stack, sizes)
    requires var m := |stack[|stack| - 1].1|; |pushed| <= m && Fewer(pushed, m)
    ensures Bounded(stack[..|stack| - 1] + pushed, sizes') && j <= sizes[|sizes| - 1]
    ensures var k := sizes[|sizes| - 1];
      if j == 0 then sizes' == sizes[..|sizes| - 1] else k >= 1 && sizes' == sizes[..|sizes| - 1] + Repeat(k - 1, j)
  {
    var k := sizes[|sizes| - 1];
    var m := |stack[|stack| - 1].1|;
    j := |pushed|;
    if j == 0 {
      sizes' := sizes[..|sizes| - 1];
      assert stack[..|stack| - 1] + pushed == stack[..|stack| - 1];
    } else {
      sizes' := sizes[..|sizes| - 1] + Repeat(k - 1, j);
      FewerMono(pushed, m, k);
      BoundedPush(stack[..|stack| - 1], sizes[..|sizes| - 1], pushed, k);
    }
  }

  /** Popping keeps the rest of the stack good, and the popped entry is good. */
  lemma PoppedGood(w: map<Simplex, real>, stack: seq<(Simplex, set<nat>)>)
    requires stack != [] && AllGood(w, stack)
    ensures AllGood(w, stack[..|stack| - 1]) && Good(w, stack[|stack| - 1])
  {
    var rest := stack[..|stack| - 1];
    forall i | 0 <= i < |rest| ensures Good(w, rest[i]) {
      assert rest[i] == stack[i];
    }
  }

  /**
   * What one visit leaves on the stack: below the level the cofaces of
   * `tau`, which with `tau` itself make up what `tau` generates.
   */
  method Descend(c: FilteredComplex, tau: Simplex, M: set<nat>, rest: seq<(Simplex, set<nat>)>, level: int, ghost w: map<Simplex, real>)
    returns (stack': seq<(Simplex, set<nat>)>, ghost pushed: seq<(Simplex, set<nat>)>)
    requires c.Valid() && SameEdges(c.weights, w) && Good(w, (tau, M)) && AllGood(w, rest)
    ensures stack' == rest + pushed && AllGood(w, stack')
    ensures {tau} + StackGen(w, stack', level) == StackGen(w, rest, level) + Gen(w, tau, level)
    ensures |pushed| <= |M| && Fewer(pushed, |M|)
  {
    GenSplit(w, tau, M, level);
    if tau.Dim() < level {
      stack', pushed := PushCofaces(c, tau, M, rest, level, w);
      UnionShuffle(StackGen(w, rest, level), Children(w, tau, M, level), tau);
    } else {
      stack', pushed := rest, [];
      assert rest + pushed == rest;
      UnionShuffle(StackGen(w, rest, level), {}, tau);
    }
  }

  lemma UnionShuffle<T>(a: set<T>, b: set<T>, t: T)
    ensures {t} + (a + b) == a + ({t} + b)
  {
  }

  /** The `complex.add_simplex(current_simplex, 0)` of one visit. */
  method MarkVisited(c: FilteredComplex, nc: FilteredComplex, current: Simplex,
                     ghost w: map<Simplex, real>, ghost nw0: map<Simplex, real>, ghost done: set<Simplex>)
    requires c.Valid() && nc.Valid() && !nc.checkValid && SameEdges(c.weights, w)
    requires nc.weights == Override(nw0, done, 0.0) && IsClique(w, current.vertices)
    modifies nc
    ensures c.Valid() && nc.Valid() && !nc.checkValid && SameEdges(c.weights, w)
    ensures nc.weights == Override(nw0, done + {current}, 0.0)
  {
    ghost var cw := c.weights;
    var _ := nc.AddSimplex(current, 0.0);
    SameEdgesAfterAdd(cw, w, current);
    OverrideStep(nw0, done, current, 0.0);
  }

  /** The bookkeeping of one visit: `current` moves from the stack's share to the visited ones. */
  lemma VisitGen(done: set<Simplex>, rest: set<Simplex>, gen: set<Simplex>, current: Simplex,
                 stackGen: set<Simplex>, total: set<Simplex>)
    requires done + (rest + gen) == total && {current} + stackGen == rest + gen
    ensures done + {current} + stackGen == total
  {
  }

  /** What the searches from the vertices in `V` generate together. */
  ghost function AllGen(w: map<Simplex, real>, V: set<Simplex>, level: int): set<Simplex> {
    set s, t | s in V && t in Gen(w, s, level) :: t
  }

  /** Before any vertex is expanded nothing is generated and no weight is overridden. */
  lemma NothingGenerated(w: map<Simplex, real>, nw0: map<Simplex, real>, level: int)
    ensures nw0 == Override(nw0, AllGen(w, {}, level), 0.0)
  {
    assert AllGen(w, {}, level) == {};
    OverrideNothing(nw0, 0.0);
  }

  lemma AllGenStep(w: map<Simplex, real>, V: set<Simplex>, s: Simplex, level: int)
    ensures AllGen(w, V + {s}, level) == AllGen(w, V, level) + Gen(w, s, level)
  {
  }

  /** The search from a vertex starts from its lower neighbours, its common lower neighbours. */
  lemma VertexGood(w: map<Simplex, real>, s: Simplex, v: nat)
    requires s.Dim() == 0 && v in s.vertices
    ensures s == Simplex({v})
    ensures Good(w, (s, LowerNbrs(w, v)))
  {
    assert s.vertices == {v} by {
      assert |s.vertices| == 1;
      forall u | u in s.vertices ensures u == v {
        if u != v {
          PairCard(u, v);
          SubsetCard({u, v}, s.vertices);
        }
      }
    }
    CommonLowerStep(w, {}, v);
    assert {} + {v} == {v};
  }

  /**
   * The vertex loop of `compute_expansion`: a search from every vertex, each
   * starting from the vertex and its lower neighbours.
   */
  method ExpandVertices(c: FilteredComplex, nc: FilteredComplex, verts: set<Simplex>, level: int, ghost w: map<Simplex, real>)
    requires c.Valid() && nc.Valid() && !nc.checkValid && SameEdges(c.weights, w)
    requires forall s :: s in verts ==> s.Dim() == 0
    modifies nc
    ensures nc.Valid()
    ensures nc.weights == Override(old(nc.weights), AllGen(w, verts, level), 0.0)
  {
    ghost var nw0 := nc.weights;
    var todo := verts;
    ghost var done: set<Simplex> := {};
    NothingGenerated(w, nw0, level);
    while todo != {}
      invariant todo <= verts && done == verts - todo
      invariant c.Valid() && nc.Valid() && !nc.checkValid && SameEdges(c.weights, w)
      invariant nc.weights == Override(nw0, AllGen(w, done, level), 0.0)
      decreases |todo|
    {
      var s := Extrema.Choose(todo);
      var v := Extrema.Choose(s.vertices);
      var lower := LowerNeighbours(c, v);
      SameEdgesSameNeighbours(c.weights, w);
      VertexGood(w, s, v);
      AddCofaces(c, nc, level, s, lower, w);
      OverrideUnion(nw0, AllGen(w, done, level), Gen(w, s, level), 0.0);
      AllGenStep(w, done, s, level);
      Extrema.Moved(verts, todo, done, s);
      done := done + {s};
      todo := todo - {s};
    }
    Extrema.Exhausted(verts, todo, done);
  }

  /**
   * The weight `compute_weights` gives the edge `e`: the metric between its
   * two vertices, in whichever order unpacking the vertex set yields them.
   */
  ghost predicate EdgeLength(e: Simplex, x: real, metric: (nat, nat) -> real)
    requires e.vertices != {}
  {
    var i := Extrema.Min(e.vertices);
    var j := Extrema.Max(e.vertices);
    x == metric(i, j) || x == metric(j, i)
  }

  /** The edges of `done` carry their lengths; every other simplex keeps its weight from `w0`. */
  ghost predicate EdgesMeasured(w: map<Simplex, real>, w0: map<Simplex, real>, done: set<Simplex>, metric: (nat, nat) -> real) {
    w.Keys == w0.Keys &&
    (forall s :: s in w && s !in done ==> w[s] == w0[s]) &&
    (forall e :: e in done ==> e in w && e.Dim() == 1 && EdgeLength(e, w[e], metric))
  }

  /** An edge has a vertex besides any one of its vertices. */
  lemma OtherEnd(e: Simplex, x: nat)
    requires e.Dim() == 1 && x in e.vertices
    ensures e.vertices - {x} != {}
  {
    assert e.vertices == {x} + (e.vertices - {x});
  }

  /** The two vertices of an edge are its smallest and its largest. */
  lemma EdgeEnds(e: Simplex, x: nat, y: nat)
    requires e.Dim() == 1 && x in e.vertices && y in e.vertices && x != y
    ensures (Extrema.Min(e.vertices) == x && Extrema.Max(e.vertices) == y) ||
            (Extrema.Min(e.vertices) == y && Extrema.Max(e.vertices) == x)
  {
    EdgeIsPair(e, x, y);
  }

  /**
   * The first loop of `compute_weights`: every edge of the new complex is
   * reweighted to the metric between its two vertices.
   */
  method ReweightEdges(c: FilteredComplex, metric: (nat, nat) -> real)
    requires c.Valid()
    modifies c
    ensures c.Valid() && c.simplices == old(c.simplices)
    ensures EdgesMeasured(c.weights, old(c.weights), c.PSimplices(1), metric)
  {
    var edges := c.PSimplices(1);
    ghost var w0 := c.weights;
    var todo := edges;
    ghost var done: set<Simplex> := {};
    while todo != {}
      invariant todo <= edges && done == edges - todo
      invariant c.Valid() && c.simplices == old(c.simplices) && edges == c.PSimplices(1)
      invariant EdgesMeasured(c.weights, w0, done, metric)
      decreases |todo|
    {
      var e := Extrema.Choose(todo);
      ReweightEdge(c, e, metric, w0, done);
      Extrema.Moved(edges, todo, done, e);
      done := done + {e};
      todo := todo - {e};
    }
    Extrema.Exhausted(edges, todo, done);
  }

  /** One pass: `(vertex_x, vertex_y) = edge.get_vertices()` and `reweight(edge, metric(x, y))`. */
  method ReweightEdge(c: FilteredComplex, e: Simplex, metric: (nat, nat) -> real, ghost w0: map<Simplex, real>, ghost done: set<Simplex>)
    requires c.Valid() && e in c.Stored() && e.Dim() == 1 && EdgesMeasured(c.weights, w0, done, metric)
    modifies c
    ensures c.Valid() && c.simplices == old(c.simplices)
    ensures EdgesMeasured(c.weights, w0, done + {e}, metric)
  {
    var x := Extrema.Choose(e.vertices);
    OtherEnd(e, x);
    var y := Extrema.Choose(e.vertices - {x});
    EdgeEnds(e, x, y);
    var _ := c.Reweight(e, metric(x, y));
  }

  /**
   * `compute_weights` on the new complex: the edges by the metric, then
   * every higher simplex by its heaviest facet, level by level. The errors
   * are those of the facet pass.
   */
  method ComputeWeights(c: FilteredComplex, metric: (nat, nat) -> real) returns (res: Outcome<ComplexError>)
    requires c.Valid()
    modifies c
    ensures c.Valid() && c.simplices == old(c.simplices) && c.weights.Keys == old(c.weights).Keys
    ensures res.Fail? ==> res.error == NoSimplices || res.error == NotInComplex
    ensures res == Fail(NoSimplices) <==> old(c.weights) == map[]
    ensures res == Fail(NotInComplex) <==> old(c.weights) != map[] && !FacetsComplete(old(c.weights))
    ensures res.Pass? ==> MaxOfFacets(c.weights) && WeighedEdges(c.weights, old(c.weights), metric)
  {
    ReweightEdges(c, metric);
    ghost var w1 := c.weights;
    ghost var E := c.PSimplices(1);
    res := ReweightByFacets(c);
    SameKeysComplete(old(c.weights), w1);
    if res.Pass? {
      EdgesThenFacets(old(c.weights), w1, c.weights, E, metric);
    }
  }

  /** The vertices keep their weights and each edge weighs its length. */
  ghost predicate WeighedEdges(w: map<Simplex, real>, w0: map<Simplex, real>, metric: (nat, nat) -> real) {
    w.Keys == w0.Keys &&
    (forall s :: s in w && s.Dim() <= 0 ==> w[s] == w0[s]) &&
    (forall e :: e in w && e.Dim() == 1 ==> EdgeLength(e, w[e], metric))
  }

  lemma SameKeysComplete(w: map<Simplex, real>, w': map<Simplex, real>)
    requires w.Keys == w'.Keys
    ensures FacetsComplete(w) <==> FacetsComplete(w')
    ensures w == map[] <==> w' == map[]
  {
    if w == map[] {
      assert w'.Keys == {};
    }
    if w' == map[] {
      assert w.Keys == {};
    }
  }

  lemma EdgesThenFacets(w0: map<Simplex, real>, w1: map<Simplex, real>, w: map<Simplex, real>, E: set<Simplex>, metric: (nat, nat) -> real)
    requires EdgesMeasured(w1, w0, E, metric) && forall e :: e in w0 && e.Dim() == 1 ==> e in E
    requires SameLowWeights(w, w1)
    ensures WeighedEdges(w, w0, metric)
  {
  }

  /**
   * `compute_expansion(dim)`: without a complex the source fails on the
   * attribute lookup, and without vertices it returns at once. Otherwise a
   * search from every vertex fills the new complex, which is weighted and
   * becomes the builder's complex; an error of `compute_weights` leaves
   * `_complex` as it was.
   */
  method ComputeExpansion(b: VRBuilder, dim: int) returns (res: Outcome<VRError>)
    requires b.Valid()
    modifies b, b.newComplex
    ensures b.Valid() && b.newComplex == old(b.newComplex)
    ensures old(b.complex) == null ==> res == Fail(NoComplex) && b.complex == null
    ensures old(b.complex) != null && old(b.complex.PSimplexCount(0)) == 0 ==>
      res == Pass && b.complex == old(b.complex) && b.newComplex.weights == old(b.newComplex.weights)
    ensures old(b.complex) != null && old(b.complex.PSimplexCount(0)) != 0 ==>
      var w := old(b.complex.weights);
      var n := Override(old(b.newComplex.weights), AllGen(w, Level(w, 0), dim), 0.0);
      b.newComplex.weights.Keys == n.Keys &&
      (res.Fail? ==> res == Fail(ComplexFailure(NotInComplex)) && !FacetsComplete(n) && b.complex == old(b.complex)) &&
      (res.Pass? ==> FacetsComplete(n) && b.complex == b.newComplex && MaxOfFacets(b.complex.weights) &&
                     WeighedEdges(b.complex.weights, n, b.metric))
  {
    var c := b.complex;
    if c == null {
      return Fail(NoComplex);
    }
    if c.PSimplexCount(0) == 0 {
      return Pass;
    }
    var nc := b.newComplex;
    var r := ExpandAndWeigh(c, nc, dim, b.metric);
    if r.Fail? {
      return Fail(ComplexFailure(r.error));
    }
    b.complex := nc;
    return Pass;
  }

  /** The vertex loop and `compute_weights` of `compute_expansion`, on a complex with vertices. */
  method ExpandAndWeigh(c: FilteredComplex, nc: FilteredComplex, dim: int, metric: (nat, nat) -> real)
    returns (res: Outcome<ComplexError>)
    requires c.Valid() && nc.Valid() && !nc.checkValid && c.PSimplexCount(0) != 0
    modifies nc
    ensures nc.Valid()
    ensures var w := old(c.weights);
      var n := Override(old(nc.weights), AllGen(w, Level(w, 0), dim), 0.0);
      nc.weights.Keys == n.Keys &&
      (res.Fail? ==> res == Fail(NotInComplex) && !FacetsComplete(n)) &&
      (res.Pass? ==> FacetsComplete(n) && MaxOfFacets(nc.weights) && WeighedEdges(nc.weights, n, metric))
  {
    ghost var w := c.weights;
    var verts := c.PSimplices(0);
    LevelIs(verts, c.Stored(), w, 0);
    ExpandVertices(c, nc, verts, dim, w);
    ghost var n := nc.weights;
    assert verts != {};
    assert AllGen(w, verts, dim) <= n.Keys;
    assert n != map[] by {
      VerticesGenerated(w, verts, dim);
      OverrideNonEmpty(n, AllGen(w, verts, dim));
    }
    res := ComputeWeights(nc, metric);
    OnlyIncomplete(res, n);
  }

  /** A map whose keys include a non-empty set is not empty. */
  lemma OverrideNonEmpty(n: map<Simplex, real>, D: set<Simplex>)
    requires D != {} && D <= n.Keys
    ensures n != map[]
  {
    var s := Extrema.Pick(D);
    assert s in n;
  }

  /** On a non-empty complex `compute_weights` can only fail on a missing facet. */
  lemma OnlyIncomplete(res: Outcome<ComplexError>, n: map<Simplex, real>)
    requires n != map[]
    requires res.Fail? ==> res.error == NoSimplices || res.error == NotInComplex
    requires res == Fail(NoSimplices) <==> n == map[]
    requires res == Fail(NotInComplex) <==> n != map[] && !FacetsComplete(n)
    ensures res.Fail? <==> !FacetsComplete(n)
    ensures res.Fail? ==> res == Fail(NotInComplex)
  {
  }

  /** Every vertex is generated from itself, so a complex with vertices yields a non-empty one. */
  lemma VerticesGenerated(w: map<Simplex, real>, V: set<Simplex>, level: int)
    requires V != {}
    ensures V <= AllGen(w, V, level) && AllGen(w, V, level) != {}
  {
    forall s | s in V ensures s in AllGen(w, V, level) {
      assert s in Gen(w, s, level);
    }
  }
}
