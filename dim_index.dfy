/**
 * The representation both complexes share: a dictionary from dimension to the
 * set of stored simplices of that dimension.
 */
module DimIndex {
  import opened Simplices
  import Extrema

  /** Every key holds a non-empty set of simplices of exactly that dimension. */
  ghost predicate ByDimension(m: map<int, set<Simplex>>) {
    forall p :: p in m ==> m[p] != {} && forall s :: s in m[p] ==> s.Dim() == p
  }

  /** All simplices held under any key. */
  function Flatten(m: map<int, set<Simplex>>): set<Simplex> {
    set p, s | p in m && s in m[p] :: s
  }

  /** The set under key `p`, or the empty set when `p` is absent (`p_simplices`). */
  function Bucket(m: map<int, set<Simplex>>, p: int): set<Simplex> {
    if p in m then m[p] else {}
  }

  /** Files `s` under its dimension, creating the set when needed. */
  function Insert(m: map<int, set<Simplex>>, s: Simplex): map<int, set<Simplex>> {
    m[s.Dim() := Bucket(m, s.Dim()) + {s}]
  }

  lemma BucketIsDimensionSlice(m: map<int, set<Simplex>>, p: int)
    requires ByDimension(m)
    ensures forall s :: s in Bucket(m, p) <==> s in Flatten(m) && s.Dim() == p
  {
    forall s | s in Flatten(m) && s.Dim() == p ensures s in Bucket(m, p) {
      var q :| q in m && s in m[q];
    }
  }

  lemma MemberIsInOwnBucket(m: map<int, set<Simplex>>, s: Simplex)
    requires ByDimension(m)
    ensures s in Flatten(m) <==> s.Dim() in m && s in m[s.Dim()]
  {
    BucketIsDimensionSlice(m, s.Dim());
  }

  lemma InsertAdds(m: map<int, set<Simplex>>, s: Simplex)
    requires ByDimension(m)
    ensures ByDimension(Insert(m, s))
    ensures Flatten(Insert(m, s)) == Flatten(m) + {s}
  {
    var m' := Insert(m, s);
    assert s in m'[s.Dim()];
    forall t | t in Flatten(m') ensures t in Flatten(m) + {s} {
      var p :| p in m' && t in m'[p];
      if t != s { assert p in m && t in m[p]; }
    }
    forall t | t in Flatten(m) ensures t in Flatten(m') {
      var p :| p in m && t in m[p];
      assert t in m'[p];
    }
  }

  /** The simplices held under the keys in `ps`. */
  ghost function FlattenIn(m: map<int, set<Simplex>>, ps: set<int>): set<Simplex> {
    set p, s | p in ps && p in m && s in m[p] :: s
  }

  /** Taking one more key `p` out of `todo` adds that key's set, which no other key shares. */
  lemma FlattenInStep(m: map<int, set<Simplex>>, todo: set<int>, p: int)
    requires ByDimension(m) && todo <= m.Keys && p in todo
    ensures FlattenIn(m, m.Keys - (todo - {p})) == FlattenIn(m, m.Keys - todo) + m[p]
    ensures FlattenIn(m, m.Keys - todo) !! m[p]
  {
    assert m.Keys - (todo - {p}) == (m.Keys - todo) + {p};
  }

  lemma FlattenInAll(m: map<int, set<Simplex>>)
    ensures FlattenIn(m, m.Keys - m.Keys) == {}
    ensures forall todo: set<int> :: todo == {} ==> FlattenIn(m, m.Keys - todo) == Flatten(m)
  {
  }

  /** The dictionary is determined by its contents: the representation is canonical. */
  lemma {:induction false} Canonical(m: map<int, set<Simplex>>, n: map<int, set<Simplex>>)
    requires ByDimension(m) && ByDimension(n)
    ensures m == n <==> Flatten(m) == Flatten(n)
  {
    if Flatten(m) == Flatten(n) {
      forall p | p in m ensures p in n && m[p] == n[p] {
        var s := Extrema.Pick(m[p]);
        BucketIsDimensionSlice(m, p);
        BucketIsDimensionSlice(n, p);
        assert s in Bucket(n, p);
      }
      forall p | p in n ensures p in m {
        var s := Extrema.Pick(n[p]);
        BucketIsDimensionSlice(m, p);
        BucketIsDimensionSlice(n, p);
        assert s in Bucket(m, p);
      }
    }
  }
}
