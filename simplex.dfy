/**
 * Complexes/Simplex.py: a simplex is an immutable set of vertex identifiers.
 * The source hashes a simplex by its frozen vertex set and compares simplices by
 * their hashes. Structural equality of a datatype over `set<nat>` abstracts that
 * comparison: it leaves out two vertex sets whose hashes collide.
 * `v in s` (`__contains__`) is `v in s.vertices`, and `get_vertices` is `s.vertices`.
 */
module Simplices {

  import opened Wrappers

  datatype Simplex = Simplex(vertices: set<nat>) {

    /** Number of vertices minus one: the empty simplex has dimension -1. */
    function Dim(): (d: int)
      ensures d >= -1
      ensures d == -1 <==> vertices == {}
      ensures d + 1 == |vertices|
    {
      |vertices| - 1
    }

    /** The codimension-1 faces: one per vertex, with that vertex removed. */
    function Facets(): (fs: set<Simplex>)
      ensures forall f :: f in fs <==> IsFacetOf(f, this)
    {
      set v | v in vertices :: Simplex(vertices - {v})
    }

    /** `s + v`: the simplex with one more vertex (or `s` itself when `v` is already a vertex). */
    function Plus(v: nat): (r: Simplex)
      ensures v in r.vertices && vertices <= r.vertices
      ensures forall u :: u in r.vertices ==> u == v || u in vertices
      ensures v !in vertices <==> r.Dim() == Dim() + 1
      ensures v in vertices ==> r == this
    {
      Simplex(vertices + {v})
    }

    /** Vertex-set intersection. */
    function Intersect(other: Simplex): (r: Simplex)
      ensures forall v :: v in r.vertices <==> v in vertices && v in other.vertices
      ensures vertices !! other.vertices <==> r.Dim() == -1
    {
      Simplex(vertices * other.vertices)
    }

    /** `self.union(*others)`: the union of this vertex set with those of all `others`, folded left to right. */
    function Union(others: seq<Simplex>): (r: Simplex)
      ensures vertices <= r.vertices
      ensures forall i :: 0 <= i < |others| ==> others[i].vertices <= r.vertices
      ensures forall v :: v in r.vertices ==> v in vertices || exists i :: 0 <= i < |others| && v in others[i].vertices
      decreases |others|
    {
      if others == [] then this
      else Simplex(vertices + others[0].vertices).Union(others[1..])
    }

    /**
     * `p_faces(p)`: every sub-simplex with exactly p + 1 vertices. For p < -1,
     * `combinations` is asked for a negative count and raises, which is `None` here.
     */
    function PFaces(p: int): (r: Option<set<Simplex>>)
      ensures r.None? <==> p < -1
      ensures r.Some? ==> forall f :: f in r.value <==> f.vertices <= vertices && f.Dim() == p
    {
      if p < -1 then None
      else Some(set f: set<nat> | f <= vertices && |f| == p + 1 :: Simplex(f))
    }
  }

  /** `f` is a facet of `s`: `s` minus exactly one of its vertices. */
  ghost predicate IsFacetOf(f: Simplex, s: Simplex) {
    exists v :: v in s.vertices && f.vertices == s.vertices - {v}
  }

  /** A facet is a subset with one vertex fewer, and every such subset is a facet. */
  lemma FacetIffSubsetOneSmaller(f: Simplex, s: Simplex)
    ensures IsFacetOf(f, s) <==> f.vertices <= s.vertices && f.Dim() == s.Dim() - 1
  {
    if f.vertices <= s.vertices && |f.vertices| == |s.vertices| - 1 {
      var d := s.vertices - f.vertices;
      assert |d| == 1;
      var v :| v in d;
      assert d == {v} by {
        forall u | u in d ensures u == v {
          if u != v { assert {u, v} <= d; assert |{u, v}| == 2; SubsetCard({u, v}, d); }
        }
      }
      assert f.vertices == s.vertices - {v};
    }
  }

  lemma SubsetCard<T>(a: set<T>, b: set<T>)
    requires a <= b
    ensures |a| <= |b|
  {
    assert b == a + (b - a);
  }

  /** There are exactly as many facets as vertices, each of dimension one less. */
  lemma {:induction false} FacetCount(s: Simplex)
    ensures |s.Facets()| == |s.vertices|
    ensures forall f :: f in s.Facets() ==> f.Dim() == s.Dim() - 1
  {
    InjectiveImageCard(s.vertices, s.vertices);
  }

  /** Removing distinct vertices gives distinct facets, so the image of `rest` has |rest| elements. */
  lemma {:induction false} InjectiveImageCard(vs: set<nat>, rest: set<nat>)
    requires rest <= vs
    ensures |set v | v in rest :: Simplex(vs - {v})| == |rest|
    decreases |rest|
  {
    var img := set v | v in rest :: Simplex(vs - {v});
    if rest != {} {
      var w :| w in rest;
      var smaller := rest - {w};
      var imgSmaller := set v | v in smaller :: Simplex(vs - {v});
      assert img == imgSmaller + {Simplex(vs - {w})};
      assert Simplex(vs - {w}) !in imgSmaller by {
        forall v | v in smaller ensures Simplex(vs - {v}) != Simplex(vs - {w}) {
          assert w in vs - {v};
        }
      }
      InjectiveImageCard(vs, smaller);
    } else {
      assert img == {};
    }
  }

  /** For a non-empty simplex, the facets are exactly its (dim - 1)-faces. */
  lemma FacetsArePFaces(s: Simplex)
    requires s.Dim() >= 0
    ensures s.PFaces(s.Dim() - 1) == Some(s.Facets())
  {
    var r := s.PFaces(s.Dim() - 1);
    assert r.Some?;
    var faces := r.value;
    forall f ensures f in s.Facets() <==> f in faces {
      FacetIffSubsetOneSmaller(f, s);
    }
    assert faces == s.Facets();
  }
}
