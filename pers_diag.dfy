/**
 * PersistentHomology/PersHomBase.py: persistence points and the persistence
 * diagram, a dictionary from dimension to a Counter of points with a running
 * point count, updated in place by `add_point`.
 */
module PersDiagrams {
  import opened Wrappers
  import opened Simplices
  import Extrema
  import ColumnReduction
  import Sorting

  /** `PersPoint`: a frozen birth-death pair, by position in the filtration and by weight, with its dimension. */
  datatype PersPoint = PersPoint(bornIndex: int, dieIndex: int, born: real, die: real, dim: int)

  /** The Counter stored under dimension `d`; an absent dimension reads as an empty Counter. */
  function Bag(m: map<int, multiset<PersPoint>>, d: int): multiset<PersPoint> {
    if d in m then m[d] else multiset{}
  }

  /** The Counters after `add_point(p)`: `p` counted once more under its own dimension, every other count unchanged. */
  function AddTo(m: map<int, multiset<PersPoint>>, p: PersPoint): (r: map<int, multiset<PersPoint>>)
    ensures r.Keys == m.Keys + {p.dim}
    ensures forall d, q :: Bag(r, d)[q] == Bag(m, d)[q] + (if d == p.dim && q == p then 1 else 0)
  {
    m[p.dim := Bag(m, p.dim) + multiset{p}]
  }

  /** Every point is filed under its own dimension. */
  ghost predicate Filed(m: map<int, multiset<PersPoint>>) {
    forall d, q :: d in m && q in m[d] ==> q.dim == d
  }

  /** The dimensions of the points of `S`. */
  ghost function Dims(S: set<PersPoint>): set<int> {
    set p | p in S :: p.dim
  }

  /** The Counters that hold each point of `S` once, under its dimension. */
  ghost function Grouped(S: set<PersPoint>): map<int, multiset<PersPoint>> {
    map d | d in Dims(S) :: multiset(set p | p in S && p.dim == d)
  }

  /** The grouping of `S` files each of its points once under its dimension, and nothing else. */
  lemma GroupedCounts(S: set<PersPoint>)
    ensures Grouped(S).Keys == Dims(S)
    ensures forall d, q :: Bag(Grouped(S), d)[q] == if q in S && q.dim == d then 1 else 0
    ensures Filed(Grouped(S))
  {
  }

  /** Two Counter maps with the same count of every point under every dimension are equal. */
  lemma SameCounts(a: map<int, multiset<PersPoint>>, b: map<int, multiset<PersPoint>>)
    requires a.Keys == b.Keys
    requires forall d, q :: Bag(a, d)[q] == Bag(b, d)[q]
    ensures a == b
  {
    forall d | d in a.Keys ensures a[d] == b[d] {
      assert forall q :: a[d][q] == Bag(a, d)[q] && b[d][q] == Bag(b, d)[q];
    }
  }

  /** `m` counts each point of `S` once, under its dimension, and nothing else. */
  ghost predicate Counts(m: map<int, multiset<PersPoint>>, S: set<PersPoint>) {
    m.Keys == Dims(S) && forall d, q :: Bag(m, d)[q] == if q in S && q.dim == d then 1 else 0
  }

  lemma DimsAdd(S: set<PersPoint>, p: PersPoint)
    ensures Dims(S + {p}) == Dims(S) + {p.dim}
  {
  }

  /** Counting one more point that was not counted yet counts the enlarged set. */
  lemma CountsAdd(g: map<int, multiset<PersPoint>>, b: map<int, multiset<PersPoint>>, S: set<PersPoint>, p: PersPoint)
    requires p !in S && Counts(g, S) && Counts(b, S + {p})
    ensures AddTo(g, p) == b
  {
    var a := AddTo(g, p);
    forall d, q ensures Bag(a, d)[q] == Bag(b, d)[q] {
      assert Bag(a, d)[q] == Bag(g, d)[q] + (if d == p.dim && q == p then 1 else 0);
      assert Bag(g, d)[q] == if q in S && q.dim == d then 1 else 0;
      assert Bag(b, d)[q] == if q in S + {p} && q.dim == d then 1 else 0;
    }
    KeysAdd(g, b, S, p);
    SameCounts(a, b);
  }

  lemma KeysAdd(g: map<int, multiset<PersPoint>>, b: map<int, multiset<PersPoint>>, S: set<PersPoint>, p: PersPoint)
    requires g.Keys == Dims(S) && b.Keys == Dims(S + {p})
    ensures AddTo(g, p).Keys == b.Keys
  {
    DimsAdd(S, p);
  }

  /** Adding a point that is not yet there to the grouping of `S` groups `S` with that point. */
  lemma GroupedAdd(S: set<PersPoint>, p: PersPoint)
    requires p !in S
    ensures AddTo(Grouped(S), p) == Grouped(S + {p})
  {
    GroupedCounts(S);
    GroupedCounts(S + {p});
    CountsAdd(Grouped(S), Grouped(S + {p}), S, p);
  }

  class PersDiag {
    /** Dimension -> Counter of points (`__points`). */
    var points: map<int, multiset<PersPoint>>
    /** `__point_count`. */
    var pointCount: int

    /** Each point sits under its own dimension. */
    ghost predicate Valid()
      reads this
    {
      Filed(points)
    }

    constructor ()
      ensures Valid() && points == map[] && pointCount == 0
    {
      points := map[];
      pointCount := 0;
    }

    /**
     * `add_point`: one more occurrence of `p` under `p.dim` (a repeated point
     * is counted again, not collapsed), and one more point in the count.
     */
    method AddPoint(p: PersPoint)
      requires Valid()
      modifies this
      ensures Valid()
      ensures points == AddTo(old(points), p) && pointCount == old(pointCount) + 1
    {
      if p.dim !in points {
        points := points[p.dim := multiset{}];
      }
      points := points[p.dim := points[p.dim] + multiset{p}];
      pointCount := pointCount + 1;
    }

    /** `__eq__`: the same count, the same dimensions, and the same Counter under each. */
    predicate Equals(other: PersDiag)
      reads this, other
      ensures Equals(other) <==> pointCount == other.pointCount && points == other.points
    {
      MapsAgree(points, other.points);
      pointCount == other.pointCount && points.Keys == other.points.Keys &&
      forall k :: k in points.Keys ==> points[k] == other.points[k]
    }

    /** `p_points(p)`: each distinct point filed under `p`, once however often it was added. */
    function PPoints(p: int): (r: set<PersPoint>)
      reads this
      ensures forall q :: q in r <==> Bag(points, p)[q] > 0
      ensures p !in points ==> r == {}
    {
      if p !in points then {} else set q | q in points[p]
    }

    /** `points`: each distinct point of the diagram once. */
    function Points(): (r: set<PersPoint>)
      reads this
      ensures forall q :: q in r <==> exists d :: d in points && q in points[d]
    {
      set d, q | d in points && q in points[d] :: q
    }

    /** In a valid diagram, the points of dimension `p` are what `p_points(p)` yields. */
    lemma PPointsAreSlice(p: int)
      requires Valid()
      ensures PPoints(p) == set q | q in Points() && q.dim == p
    {
      forall q | q in Points() && q.dim == p ensures q in PPoints(p) {
        var d :| d in points && q in points[d];
      }
    }
  }

  /** Maps agree key by key exactly when they are equal. */
  lemma MapsAgree(a: map<int, multiset<PersPoint>>, b: map<int, multiset<PersPoint>>)
    ensures (a.Keys == b.Keys && forall k :: k in a.Keys ==> a[k] == b[k]) <==> a == b
  {
    if a.Keys == b.Keys && forall k :: k in a.Keys ==> a[k] == b[k] {
      assert forall k :: k in a <==> k in b;
    }
  }

  /** Why `get_pers_diag` fails: `compute` has not set the diagram yet. */
  datatype PersError = NotComputed

  /** `get_pers_diag`: the diagram once `compute` has set it, a failed assertion before. */
  function GetPersDiag(d: PersDiag?): (r: Result<PersDiag, PersError>)
    ensures r.Success? <==> d != null
    ensures r.Success? ==> r.value == d
  {
    if d == null then Failure(NotComputed) else Success(d)
  }

  /** The point `compute` emits for the pair (`r`, `c`): born at row `r`, dead at column `c`, in the dimension of the simplex at `r`. */
  function PairPoint(r: nat, c: nat, ord: seq<Simplex>, ws: seq<real>): PersPoint
    requires r < |ord| && r < |ws| && c < |ws|
  {
    PersPoint(r, c, ws[r], ws[c], ord[r].Dim())
  }

  /** The pairing `low` (row -> column) fits the ordering and the weight list. */
  ghost predicate Fits(low: map<nat, nat>, ord: seq<Simplex>, ws: seq<real>) {
    forall r :: r in low ==> r < |ord| && r < |ws| && low[r] < |ws|
  }

  /** The pairing that the reduction of a boundary with rows below its size ends with fits its filtration. */
  lemma ReducedFits(D: seq<set<nat>>, ord: seq<Simplex>, ws: seq<real>)
    requires |D| == |ord| == |ws| && ColumnReduction.RowsBelow(D, |D|)
    ensures Fits(ColumnReduction.Reduce(D, |D|).low, ord, ws)
  {
    ColumnReduction.ReduceBelow(D, |D|, |D|);
  }

  /** The points of the rows `rows` of the pairing `low`. */
  ghost function PairPoints(low: map<nat, nat>, rows: set<nat>, ord: seq<Simplex>, ws: seq<real>): set<PersPoint>
    requires Fits(low, ord, ws) && rows <= low.Keys
  {
    set r | r in rows :: PairPoint(r, low[r], ord, ws)
  }

  lemma PairPointsStep(low: map<nat, nat>, rows: set<nat>, r: nat, ord: seq<Simplex>, ws: seq<real>)
    requires Fits(low, ord, ws) && rows <= low.Keys && r in low && r !in rows
    ensures PairPoint(r, low[r], ord, ws) !in PairPoints(low, rows, ord, ws)
    ensures PairPoints(low, rows + {r}, ord, ws) == PairPoints(low, rows, ord, ws) + {PairPoint(r, low[r], ord, ws)}
  {
  }

  /** A point is born before it dies: by position, and by weight no later. */
  predicate Ordered(p: PersPoint) {
    p.bornIndex < p.dieIndex && p.born <= p.die
  }

  /** Every point counted under every dimension is born before it dies. */
  ghost predicate PointsOrdered(m: map<int, multiset<PersPoint>>) {
    forall d, q :: d in m && q in m[d] ==> Ordered(q)
  }

  lemma GroupedOrdered(S: set<PersPoint>)
    requires forall q :: q in S ==> Ordered(q)
    ensures PointsOrdered(Grouped(S))
  {
  }

  /**
   * Reducing a boundary whose rows all lie above their columns, over weights
   * in ascending order, pairs every row with a later column: each point of
   * the diagram is born before it dies, and at a weight no greater.
   */
  lemma ReducedOrdered(D: seq<set<nat>>, ord: seq<Simplex>, ws: seq<real>)
    requires |D| == |ord| == |ws| && ColumnReduction.Triangular(D) && Sorting.Ascending(ws)
    ensures Fits(ColumnReduction.Reduce(D, |D|).low, ord, ws)
    ensures PointsOrdered(Grouped(PairPoints(ColumnReduction.Reduce(D, |D|).low, ColumnReduction.Reduce(D, |D|).low.Keys, ord, ws)))
  {
    assert ColumnReduction.RowsBelow(D, |D|);
    ReducedFits(D, ord, ws);
    ColumnReduction.ReduceForward(D, |D|);
    var low := ColumnReduction.Reduce(D, |D|).low;
    forall q | q in PairPoints(low, low.Keys, ord, ws) ensures Ordered(q) {
      var r :| r in low.Keys && q == PairPoint(r, low[r], ord, ws);
      assert r < low[r];
    }
    GroupedOrdered(PairPoints(low, low.Keys, ord, ws));
  }

  /**
   * The tail of `compute` in PersHom1 and PersHom2: a fresh diagram with one
   * point per entry of `low`, visited in some order; the diagram does not
   * depend on that order.
   */
  method EmitPairs(low: map<nat, nat>, ord: seq<Simplex>, ws: seq<real>) returns (d: PersDiag)
    requires Fits(low, ord, ws)
    ensures fresh(d) && d.Valid()
    ensures d.points == Grouped(PairPoints(low, low.Keys, ord, ws))
    ensures d.pointCount == |low.Keys|
  {
    d := new PersDiag();
    GroupedCounts({});
    var todo := low.Keys;
    ghost var done: set<nat> := {};
    assert PairPoints(low, done, ord, ws) == {};
    while todo != {}
      invariant todo <= low.Keys && done == low.Keys - todo
      invariant d.Valid() && d.points == Grouped(PairPoints(low, done, ord, ws))
      invariant d.pointCount == |done|
      decreases |todo|
    {
      var r := Extrema.Choose(todo);
      var p := PairPoint(r, low[r], ord, ws);
      PairPointsStep(low, done, r, ord, ws);
      GroupedAdd(PairPoints(low, done, ord, ws), p);
      d.AddPoint(p);
      Extrema.Moved(low.Keys, todo, done, r);
      done := done + {r};
      todo := todo - {r};
    }
    Extrema.Exhausted(low.Keys, todo, done);
  }
}
