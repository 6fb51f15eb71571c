/**
 * Complexes/SimplicialComplex.py: simplices grouped by dimension in a dictionary
 * of sets that `add_simplex` updates in place, optionally checking that every
 * facet is already present.
 */
module SimplicialComplexes {
  import opened Wrappers
  import opened Simplices
  import opened DimIndex
  import Extrema

  datatype InsertError = MissingFacet

  class SimplicialComplex {
    /** Dimension -> the simplices of that dimension (`__simplices`). */
    var simplices: map<int, set<Simplex>>
    /** `__check_valid`. */
    const checkValid: bool

    ghost predicate Valid()
      reads this
    {
      ByDimension(simplices)
    }

    /** All stored simplices, whatever their dimension. */
    function Stored(): set<Simplex>
      reads this
    {
      Flatten(simplices)
    }

    constructor (checkValid: bool)
      ensures Valid() && simplices == map[] && this.checkValid == checkValid
    {
      simplices := map[];
      this.checkValid := checkValid;
    }

    /** `s in complex`: false when no simplex of that dimension was ever added. */
    predicate Contains(s: Simplex)
      reads this
      requires Valid()
      ensures Contains(s) <==> s in Stored()
      ensures s.Dim() !in simplices ==> !Contains(s)
    {
      MemberIsInOwnBucket(simplices, s);
      s.Dim() in simplices && s in simplices[s.Dim()]
    }

    /** `dim`: the largest dimension present (`max` of an empty key set raises, hence the precondition). */
    function Dim(): (d: int)
      reads this
      requires Valid() && simplices != map[]
      ensures exists s :: s in Stored() && s.Dim() == d
      ensures forall s :: s in Stored() ==> s.Dim() <= d
    {
      var d := Extrema.Max(simplices.Keys);
      var s := Extrema.Pick(simplices[d]);
      assert s in Stored();
      d
    }

    /** `size`: sums the sizes of the per-dimension sets, which is the number of stored simplices. */
    method Size() returns (n: nat)
      requires Valid()
      ensures n == |Stored()|
    {
      n := 0;
      var todo := simplices.Keys;
      FlattenInAll(simplices);
      while todo != {}
        invariant todo <= simplices.Keys
        invariant n == |FlattenIn(simplices, simplices.Keys - todo)|
        decreases |todo|
      {
        var p := Extrema.Choose(todo);
        FlattenInStep(simplices, todo, p);
        n := n + |simplices[p]|;
        todo := todo - {p};
      }
    }

    /** `__add_vertex`: files `s` under its dimension, creating the set when needed. */
    method AddVertex(s: Simplex)
      requires Valid()
      modifies this
      ensures Valid()
      ensures simplices == Insert(old(simplices), s)
      ensures Stored() == old(Stored()) + {s}
    {
      InsertAdds(simplices, s);
      simplices := Insert(simplices, s);
    }

    /**
     * `add_simplex`: a 0-simplex is always added; with checking on, a simplex
     * of any other dimension is refused (and nothing changes) when one of its
     * facets is missing; otherwise it is added.
     */
    method AddSimplex(s: Simplex) returns (res: Outcome<InsertError>)
      requires Valid()
      modifies this
      ensures Valid()
      ensures res.Fail? <==> checkValid && s.Dim() != 0 && exists f :: f in s.Facets() && f !in old(Stored())
      ensures res.Fail? ==> simplices == old(simplices)
      ensures res.Pass? ==> simplices == Insert(old(simplices), s) && Stored() == old(Stored()) + {s}
    {
      if s.Dim() == 0 {
        AddVertex(s);
        return Pass;
      }
      if checkValid {
        var todo := s.Facets();
        while todo != {}
          invariant todo <= s.Facets()
          invariant forall f :: f in s.Facets() && f !in todo ==> f in Stored()
          invariant simplices == old(simplices)
          decreases |todo|
        {
          var f := Extrema.Choose(todo);
          FacetIffSubsetOneSmaller(f, s);
          MemberIsInOwnBucket(simplices, f);
          if s.Dim() - 1 !in simplices {
            return Fail(MissingFacet);
          }
          if f !in simplices[s.Dim() - 1] {
            return Fail(MissingFacet);
          }
          todo := todo - {f};
        }
      }
      AddVertex(s);
      return Pass;
    }
  }

  /** Adding a simplex that is already present leaves the dictionary as it was. */
  lemma ReAddIsIdempotent(m: map<int, set<Simplex>>, s: Simplex)
    requires ByDimension(m) && s in Flatten(m)
    ensures Insert(m, s) == m
  {
    MemberIsInOwnBucket(m, s);
    assert Bucket(m, s.Dim()) + {s} == m[s.Dim()];
  }
}
