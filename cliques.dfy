/**
 * The edge graph of a complex and its cliques, which the expansion
 * strategies fill in, and `lower_neighbours`, which both the incremental and
 * the inductive strategy define in the same way.
 */
module Cliques {
  import opened Simplices
  import opened FilteredComplexes
  import Extrema

  /** Every two distinct vertices of `vs` are joined by an edge of `w`. */
  ghost predicate IsClique(w: map<Simplex, real>, vs: set<nat>) {
    forall u, v :: u in vs && v in vs && u != v ==> Simplex({u, v}) in w
  }

  /** The neighbours of `v` in the edge graph that are smaller than `v`. */
  ghost function LowerNbrs(w: map<Simplex, real>, v: nat): (r: set<nat>)
    ensures forall u: nat :: u in r <==> u < v && Simplex({u, v}) in w
  {
    set u: nat | u < v && Simplex({u, v}) in w
  }

  /** The vertices below every vertex of `s` and joined to each of them (none for the empty simplex). */
  ghost function CommonLower(w: map<Simplex, real>, s: Simplex): (r: set<nat>)
    ensures forall u :: u in r <==> s.vertices != {} && forall v :: v in s.vertices ==> u in LowerNbrs(w, v)
  {
    if s.vertices == {} then {}
    else
      var v0 := Extrema.Pick(s.vertices);
      set u | u in LowerNbrs(w, v0) && forall v :: v in s.vertices ==> u in LowerNbrs(w, v)
  }

  /** `w` and `w'` have the same edges. */
  ghost predicate SameEdges(w: map<Simplex, real>, w': map<Simplex, real>) {
    forall s: Simplex :: s.Dim() == 1 ==> (s in w <==> s in w')
  }

  /** The edge graph decides the lower neighbours. */
  lemma SameEdgesSameNeighbours(w: map<Simplex, real>, w': map<Simplex, real>)
    requires SameEdges(w, w')
    ensures forall v :: LowerNbrs(w, v) == LowerNbrs(w', v)
    ensures forall s :: CommonLower(w, s) == CommonLower(w', s)
    ensures forall vs :: IsClique(w, vs) <==> IsClique(w', vs)
  {
    forall u: nat, v: nat | u != v ensures Simplex({u, v}).Dim() == 1 {
      PairCard(u, v);
    }
  }

  /**
   * `s + n` for a common lower neighbour `n` of a clique `s` is a clique one
   * dimension higher, whose smallest vertex is `n`.
   */
  lemma CofaceIsClique(w: map<Simplex, real>, s: Simplex, n: nat)
    requires IsClique(w, s.vertices) && n in CommonLower(w, s)
    ensures IsClique(w, s.Plus(n).vertices)
    ensures s.Plus(n).Dim() == s.Dim() + 1
    ensures forall v :: v in s.vertices ==> n < v
  {
    var t := s.Plus(n).vertices;
    forall u, v | u in t && v in t && u != v ensures Simplex({u, v}) in w {
      if u == n {
        assert n in LowerNbrs(w, v);
      } else if v == n {
        assert n in LowerNbrs(w, u);
        assert {v, u} == {u, v};
      }
    }
  }

  /** The smallest vertex of a non-empty simplex. */
  ghost function Lowest(t: Simplex): (n: nat)
    requires t.vertices != {}
    ensures n in t.vertices && forall v :: v in t.vertices ==> n <= v
  {
    Extrema.Min(t.vertices)
  }

  /**
   * A clique of dimension at least 1 is its smallest vertex added to the
   * clique of its other vertices, of which that vertex is a common lower
   * neighbour.
   */
  lemma CliqueSplits(w: map<Simplex, real>, t: Simplex)
    requires IsClique(w, t.vertices) && t.Dim() >= 1
    ensures var s := Simplex(t.vertices - {Lowest(t)});
      IsClique(w, s.vertices) && s.Dim() == t.Dim() - 1 &&
      Lowest(t) in CommonLower(w, s) && s.Plus(Lowest(t)) == t
  {
    var n := Lowest(t);
    var s := Simplex(t.vertices - {n});
    assert s.Plus(n) == t;
    forall v | v in s.vertices ensures n in LowerNbrs(w, v) {
      assert {n, v} == {v, n};
    }
  }

  /** A stored edge is a clique. */
  lemma EdgeIsClique(w: map<Simplex, real>, e: Simplex)
    requires e in w && e.Dim() == 1
    ensures IsClique(w, e.vertices)
  {
    forall u, v | u in e.vertices && v in e.vertices && u != v ensures Simplex({u, v}) in w {
      EdgeIsPair(e, u, v);
    }
  }

  /** A clique of two vertices is a stored edge. */
  lemma PairCliqueIsEdge(w: map<Simplex, real>, e: Simplex)
    requires IsClique(w, e.vertices) && e.Dim() == 1
    ensures e in w
  {
    var u := Extrema.Pick(e.vertices);
    assert |e.vertices - {u}| == 1;
    var v := Extrema.Pick(e.vertices - {u});
    EdgeIsPair(e, u, v);
  }

  /** `lower_neighbours(v)`: filters the edge neighbours of `v` down to those below `v`. */
  method LowerNeighbours(c: FilteredComplex, v: nat) returns (r: set<nat>)
    requires c.Valid()
    ensures r == LowerNbrs(c.weights, v)
  {
    var nbrs := c.GetEdgeNeighbours(v);
    r := {};
    var todo := nbrs;
    while todo != {}
      invariant todo <= nbrs
      invariant forall u :: u in r <==> u in nbrs && u !in todo && u < v
      decreases |todo|
    {
      var u := Extrema.Choose(todo);
      if u < v {
        r := r + {u};
      }
      todo := todo - {u};
    }
  }
}
