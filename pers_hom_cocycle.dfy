/**
 * PersistentHomology/PersHom4.py: a dual, cocycle-based pairing. The
 * simplices are visited from the last to the first; simplex `i` (counted
 * from the end) collects the symmetric difference of the cocycles of the
 * unmarked facets of its simplex, and when that is non-empty it is paired
 * with the least index in it, both get marked, and that index is added to
 * the other cocycles involved.
 */
module CocyclePersistence {
  import opened Wrappers
  import opened Simplices
  import opened Sorting
  import FilteredComplexes
  import opened Boundaries
  import opened ColumnReduction
  import opened PersDiagrams
  import Extrema

  /** `cob` is the anti-transpose of the `n` columns `B`: rows and columns both swapped and counted from the end. */
  ghost predicate AntiTransposed(B: seq<set<nat>>, cob: seq<set<nat>>, n: nat) {
    |B| == n && |cob| == n &&
    (forall c, r :: 0 <= c < n && r in B[c] ==> r < n && n - 1 - c in cob[n - 1 - r]) &&
    (forall x, y :: 0 <= x < n && y in cob[x] ==> y < n && n - 1 - x in B[n - 1 - y])
  }

  /** Row `r` is in column `c` of the boundary exactly when `n-1-c` is in column `n-1-r` of the coboundary. */
  lemma AntiTransposedIff(B: seq<set<nat>>, cob: seq<set<nat>>, n: nat, r: nat, c: nat)
    requires AntiTransposed(B, cob, n) && r < n && c < n
    ensures r in B[c] <==> n - 1 - c in cob[n - 1 - r]
  {
    if n - 1 - c in cob[n - 1 - r] {
      assert n - 1 - (n - 1 - r) in B[n - 1 - (n - 1 - c)];
    }
  }

  /** `cob` holds the anti-transposed entries of the columns before `c`, and of the rows `done` of column `c`. */
  ghost predicate CobSoFar(B: seq<set<nat>>, cob: seq<set<nat>>, n: nat, c: nat, done: set<nat>)
    requires |B| == n && c <= n
  {
    |cob| == n &&
    (forall c', r :: 0 <= c' < c && r in B[c'] ==> r < n && n - 1 - c' in cob[n - 1 - r]) &&
    (forall r :: r in done ==> r < n && n - 1 - c in cob[n - 1 - r]) &&
    (forall x, y :: 0 <= x < n && y in cob[x] ==> y < n && (n - 1 - y < c || (n - 1 - y == c && n - 1 - x in done)) && n - 1 - x in B[n - 1 - y])
  }

  /** One more entry of column `c`. */
  lemma CobStep(B: seq<set<nat>>, cob: seq<set<nat>>, n: nat, c: nat, done: set<nat>, r: nat)
    requires |B| == n && c < n && r in B[c] && r !in done && r < n && done <= B[c]
    requires CobSoFar(B, cob, n, c, done)
    ensures CobSoFar(B, cob[n - 1 - r := cob[n - 1 - r] + {n - 1 - c}], n, c, done + {r})
  {
  }

  /** A column whose rows are all done hands over to the next column. */
  lemma CobNext(B: seq<set<nat>>, cob: seq<set<nat>>, n: nat, c: nat)
    requires |B| == n && c < n && CobSoFar(B, cob, n, c, B[c])
    ensures CobSoFar(B, cob, n, c + 1, {})
  {
  }

  /**
   * The coboundary built by `__init__`: one empty set per simplex, then for
   * each row `r` of each column `c` the entry `n-1-c` added to set `n-1-r`.
   */
  method AntiTranspose(B: seq<set<nat>>, n: nat) returns (cob: seq<set<nat>>)
    requires |B| == n && RowsBelow(B, n)
    ensures AntiTransposed(B, cob, n)
  {
    cob := seq(n, _ => {});
    var c := 0;
    while c < n
      invariant 0 <= c <= n && CobSoFar(B, cob, n, c, {})
    {
      var todo := B[c];
      ghost var done: set<nat> := {};
      while todo != {}
        invariant todo <= B[c] && done == B[c] - todo
        invariant CobSoFar(B, cob, n, c, done)
        decreases |todo|
      {
        var r := Extrema.Choose(todo);
        CobStep(B, cob, n, c, done, r);
        cob := cob[n - 1 - r := cob[n - 1 - r] + {n - 1 - c}];
        done := done + {r};
        todo := todo - {r};
      }
      Extrema.Exhausted(B[c], todo, done);
      CobNext(B, cob, n, c);
      c := c + 1;
    }
  }

  /** The indices in `K` whose cocycle holds `x`. */
  ghost function Holders(C: seq<set<nat>>, K: set<nat>, x: nat): set<nat> {
    set k | k in K && k < |C| && x in C[k]
  }

  /** The symmetric difference of the cocycles `C[k]`, `k` in `K`: what an odd number of them hold. */
  ghost function XorOf(C: seq<set<nat>>, K: set<nat>): set<nat> {
    set k, x | k in K && k < |C| && x in C[k] && |Holders(C, K, x)| % 2 == 1 :: x
  }

  lemma XorOfMember(C: seq<set<nat>>, K: set<nat>, x: nat)
    ensures x in XorOf(C, K) <==> |Holders(C, K, x)| % 2 == 1
  {
    if |Holders(C, K, x)| % 2 == 1 {
      var k := Extrema.Pick(Holders(C, K, x));
      assert k in K && k < |C| && x in C[k];
    }
  }

  /** The holders of `x` gain `k` exactly when `C[k]` holds `x`. */
  lemma HoldersStep(C: seq<set<nat>>, K: set<nat>, k: nat, x: nat)
    requires k !in K && k < |C|
    ensures |Holders(C, K + {k}, x)| == |Holders(C, K, x)| + (if x in C[k] then 1 else 0)
  {
    if x in C[k] {
      assert Holders(C, K + {k}, x) == Holders(C, K, x) + {k};
    } else {
      assert Holders(C, K + {k}, x) == Holders(C, K, x);
    }
  }

  /** Adding one more cocycle toggles each of its elements: the symmetric difference is built one cocycle at a time. */
  lemma XorOfStep(C: seq<set<nat>>, K: set<nat>, k: nat)
    requires k !in K && k < |C|
    ensures XorOf(C, K + {k}) == SymDiff(XorOf(C, K), C[k])
  {
    forall x ensures x in XorOf(C, K + {k}) <==> (x in XorOf(C, K) <==> x !in C[k]) {
      XorOfMember(C, K, x);
      XorOfMember(C, K + {k}, x);
      HoldersStep(C, K, k, x);
    }
  }

  /** The symmetric difference of cocycles whose elements are below `n` has its elements below `n`. */
  lemma XorOfBelow(C: seq<set<nat>>, K: set<nat>, n: nat)
    requires forall k, x :: 0 <= k < |C| && x in C[k] ==> x < n
    ensures forall x :: x in XorOf(C, K) ==> x < n
  {
  }

  /** The cocycle indices `n-1-j` of the rows `j` of `col` whose index is not marked. */
  ghost function Unmarked(col: set<nat>, n: nat, marked: set<nat>): set<nat> {
    set j | j in col && j < n && n - 1 - j !in marked :: (n - 1 - j) as nat
  }

  lemma UnmarkedStep(done: set<nat>, j: nat, n: nat, marked: set<nat>)
    requires j !in done && j < n
    ensures n - 1 - j !in Unmarked(done, n, marked)
    ensures Unmarked(done + {j}, n, marked) == Unmarked(done, n, marked) + (if n - 1 - j in marked then {} else {(n - 1 - j) as nat})
  {
  }

  /** The inner `for k in cocycles[j_index]` loop: each element of `cocycle` is removed from `indices` if present and added if not. */
  method Toggle(indices: set<nat>, cocycle: set<nat>) returns (r: set<nat>)
    ensures r == SymDiff(indices, cocycle)
  {
    r := indices;
    var todo := cocycle;
    ghost var done: set<nat> := {};
    while todo != {}
      invariant todo <= cocycle && done == cocycle - todo
      invariant forall x :: x in r <==> (x in indices <==> x !in done)
      decreases |todo|
    {
      var k := Extrema.Choose(todo);
      if k in r {
        r := r - {k};
      } else {
        r := r + {k};
      }
      done := done + {k};
      todo := todo - {k};
    }
    Extrema.Exhausted(cocycle, todo, done);
  }

  /**
   * The `indices` loop of `compute` for one column: the symmetric difference
   * of the cocycles `n-1-j` over the rows `j` of `col` whose index `n-1-j`
   * is not marked.
   */
  method CollectIndices(C: seq<set<nat>>, col: set<nat>, n: nat, marked: set<nat>) returns (indices: set<nat>)
    requires |C| == n && forall j :: j in col ==> j < n
    ensures indices == XorOf(C, Unmarked(col, n, marked))
  {
    indices := {};
    var todo := col;
    ghost var done: set<nat> := {};
    assert Unmarked(done, n, marked) == {};
    assert XorOf(C, {}) == {};
    while todo != {}
      invariant todo <= col && done == col - todo
      invariant indices == XorOf(C, Unmarked(done, n, marked))
      decreases |todo|
    {
      var j := Extrema.Choose(todo);
      var jIndex := n - 1 - j;
      UnmarkedStep(done, j, n, marked);
      if jIndex !in marked {
        XorOfStep(C, Unmarked(done, n, marked), jIndex);
        indices := Toggle(indices, C[jIndex]);
      }
      done := done + {j};
      todo := todo - {j};
    }
    Extrema.Exhausted(col, todo, done);
  }

  /** The cocycles after `p` is added to the cocycle of each index of `ind` other than `p`. */
  ghost function Extended(C: seq<set<nat>>, ind: set<nat>, p: nat): (r: seq<set<nat>>)
    ensures |r| == |C|
  {
    seq(|C|, k requires 0 <= k < |C| => if k in ind && k != p then C[k] + {p} else C[k])
  }

  /** The closing `for j in indices` loop: `p` joins the cocycle of every other index of `ind`. */
  method ExtendCocycles(C: seq<set<nat>>, ind: set<nat>, p: nat) returns (r: seq<set<nat>>)
    requires forall j :: j in ind ==> j < |C|
    ensures r == Extended(C, ind, p)
  {
    r := C;
    var todo := ind;
    ghost var done: set<nat> := {};
    ExtendedNone(C, p);
    while todo != {}
      invariant todo <= ind && done == ind - todo
      invariant r == Extended(C, done, p)
      decreases |todo|
    {
      var j := Extrema.Choose(todo);
      ExtendedStep(C, done, j, p);
      if j != p {
        r := r[j := r[j] + {p}];
      }
      Extrema.Moved(ind, todo, done, j);
      done := done + {j};
      todo := todo - {j};
    }
    Extrema.Exhausted(ind, todo, done);
  }

  /** With no index to extend, every cocycle is unchanged. */
  lemma ExtendedNone(C: seq<set<nat>>, p: nat)
    ensures Extended(C, {}, p) == C
  {
  }

  /** Extending one more index `j` adds `p` to cocycle `j` alone, unless `j` is `p`. */
  lemma ExtendedStep(C: seq<set<nat>>, done: set<nat>, j: nat, p: nat)
    requires j < |C| && j !in done
    ensures var e := Extended(C, done, p);
            Extended(C, done + {j}, p) == if j != p then e[j := e[j] + {p}] else e
  {
  }

  /** The cocycles, the marked indices and the emitted pairs `(p, i)` of `compute`, all counted from the end. */
  datatype CoState = CoState(cocycles: seq<set<nat>>, marked: set<nat>, pairs: set<(nat, nat)>)

  /** What the pass for index `i` does to the state. */
  ghost function CoStep(st: CoState, B: seq<set<nat>>, n: nat, i: nat): CoState
    requires i < n && |B| == n && |st.cocycles| == n
  {
    var ind := XorOf(st.cocycles, Unmarked(B[n - 1 - i], n, st.marked));
    if ind == {} then st
    else
      var p: nat := Extrema.Min(ind);
      CoState(Extended(st.cocycles, ind, p), st.marked + {i} + {p}, st.pairs + {(p, i)})
  }

  /** The state of `compute` once the indices from `n - 1` down to `i` are done. */
  ghost function CoRun(B: seq<set<nat>>, n: nat, i: nat): (st: CoState)
    requires i <= n && |B| == n
    ensures |st.cocycles| == n
    decreases n - i
  {
    if i == n then CoState(seq(n, k => {k}), {}, {})
    else CoStep(CoRun(B, n, i + 1), B, n, i)
  }

  /**
   * The invariant of `compute` once the indices from `n - 1` down to `i` are
   * done: each cocycle holds its own index and only indices below `n`, the
   * marked indices are below `n`, and each pair `(p, c)` has both ends
   * marked, `p` below `n`, and `c` among the indices done, with at most one
   * pair per `c`.
   */
  ghost predicate Good(st: CoState, n: nat, i: nat) {
    |st.cocycles| == n &&
    (forall k :: 0 <= k < n ==> k in st.cocycles[k]) &&
    (forall k, x :: 0 <= k < n && x in st.cocycles[k] ==> x < n) &&
    (forall q :: q in st.marked ==> q < n) &&
    (forall pr :: pr in st.pairs ==> pr.0 < n && i <= pr.1 < n && pr.0 in st.marked && pr.1 in st.marked) &&
    (forall a, b :: a in st.pairs && b in st.pairs && a.1 == b.1 ==> a == b)
  }

  /** One pass keeps the invariant, and no cocycle shrinks. */
  lemma CoStepGood(st: CoState, B: seq<set<nat>>, n: nat, i: nat)
    requires i < n && |B| == n && Good(st, n, i + 1)
    ensures Good(CoStep(st, B, n, i), n, i)
    ensures forall k :: 0 <= k < n ==> st.cocycles[k] <= CoStep(st, B, n, i).cocycles[k]
  {
    var ind := XorOf(st.cocycles, Unmarked(B[n - 1 - i], n, st.marked));
    XorOfBelow(st.cocycles, Unmarked(B[n - 1 - i], n, st.marked), n);
    if ind != {} {
      var p: nat := Extrema.Min(ind);
      var st' := CoStep(st, B, n, i);
      assert st'.pairs == st.pairs + {(p, i)};
      forall a, b | a in st'.pairs && b in st'.pairs && a.1 == b.1 ensures a == b {
        if a != (p, i) && b != (p, i) {
          assert a in st.pairs && b in st.pairs;
        }
      }
    }
  }

  /** The invariant holds from the start and after every pass. */
  lemma {:induction false} CoRunGood(B: seq<set<nat>>, n: nat, i: nat)
    requires i <= n && |B| == n
    ensures Good(CoRun(B, n, i), n, i)
    decreases n - i
  {
    if i < n {
      CoRunGood(B, n, i + 1);
      CoStepGood(CoRun(B, n, i + 1), B, n, i);
    }
  }

  /** Cocycles only grow: a later state holds everything an earlier one did. */
  lemma {:induction false} CoRunGrows(B: seq<set<nat>>, n: nat, i: nat, j: nat)
    requires i <= j <= n && |B| == n
    ensures forall k :: 0 <= k < n ==> CoRun(B, n, j).cocycles[k] <= CoRun(B, n, i).cocycles[k]
    decreases j - i
  {
    if i < j {
      CoRunGrows(B, n, i + 1, j);
      CoRunGood(B, n, i + 1);
      CoStepGood(CoRun(B, n, i + 1), B, n, i);
    }
  }

  /**
   * Once the indices from `n - 1` down to `i` are done over a boundary whose
   * facets come first, a cocycle holds besides its own index only indices
   * above `i`, and every pair `(p, c)` has `p > c`.
   */
  ghost predicate CoForward(st: CoState, i: nat) {
    (forall k, x :: 0 <= k < |st.cocycles| && x in st.cocycles[k] ==> x == k || i < x) &&
    (forall pr :: pr in st.pairs ==> pr.1 < pr.0)
  }

  /** Every index in `S` lies above `i`. */
  ghost predicate Above(S: set<nat>, i: nat) {
    forall x :: x in S ==> i < x
  }

  /** Over a triangular boundary, the indices a pass collects for `i` all lie above `i`. */
  lemma CollectedAbove(st: CoState, B: seq<set<nat>>, n: nat, i: nat)
    requires i < n && |B| == n && |st.cocycles| == n && Triangular(B) && CoForward(st, i + 1)
    ensures Above(XorOf(st.cocycles, Unmarked(B[n - 1 - i], n, st.marked)), i)
  {
    var K := Unmarked(B[n - 1 - i], n, st.marked);
    forall x | x in XorOf(st.cocycles, K) ensures i < x {
      var k :| k in K && k < |st.cocycles| && x in st.cocycles[k];
      var j :| j in B[n - 1 - i] && j < n && n - 1 - j !in st.marked && k == n - 1 - j;
      assert j < n - 1 - i;
    }
  }

  lemma CoStepForward(st: CoState, B: seq<set<nat>>, n: nat, i: nat)
    requires i < n && |B| == n && |st.cocycles| == n && Triangular(B) && CoForward(st, i + 1)
    ensures CoForward(CoStep(st, B, n, i), i)
  {
    var ind := XorOf(st.cocycles, Unmarked(B[n - 1 - i], n, st.marked));
    CollectedAbove(st, B, n, i);
    if ind != {} {
      var p: nat := Extrema.Min(ind);
      assert i < p;
    }
  }

  /** Over a triangular boundary, every pair of the run is `(p, c)` with `p > c`. */
  lemma {:induction false} CoRunForward(B: seq<set<nat>>, n: nat, i: nat)
    requires i <= n && |B| == n && Triangular(B)
    ensures CoForward(CoRun(B, n, i), i)
    decreases n - i
  {
    if i < n {
      CoRunForward(B, n, i + 1);
      CoStepForward(CoRun(B, n, i + 1), B, n, i);
    }
  }

  /** The pairs are well placed for the points they give. */
  ghost predicate PairsFit(pairs: set<(nat, nat)>, n: nat, ord: seq<Simplex>, ws: seq<real>) {
    n == |ord| == |ws| && forall pr :: pr in pairs ==> pr.0 < n && pr.1 < n
  }

  /** The point of each pair `(p, i)`: born at position `n-1-p`, dead at `n-1-i`, in the dimension of the simplex at `n-1-p`. */
  ghost function CoPoints(pairs: set<(nat, nat)>, n: nat, ord: seq<Simplex>, ws: seq<real>): set<PersPoint>
    requires PairsFit(pairs, n, ord, ws)
  {
    set pr | pr in pairs :: PairPoint(n - 1 - pr.0, n - 1 - pr.1, ord, ws)
  }

  /**
   * The points of pairs `(p, c)` with `p > c` are born at `n-1-p`, before
   * they die at `n-1-c`, and over ascending weights at a weight no greater.
   */
  lemma CoPointsOrdered(pairs: set<(nat, nat)>, n: nat, ord: seq<Simplex>, ws: seq<real>)
    requires PairsFit(pairs, n, ord, ws) && Ascending(ws)
    requires forall pr :: pr in pairs ==> pr.1 < pr.0
    ensures PointsOrdered(Grouped(CoPoints(pairs, n, ord, ws)))
  {
    forall q | q in CoPoints(pairs, n, ord, ws) ensures Ordered(q) {
      var pr :| pr in pairs && q == PairPoint(n - 1 - pr.0, n - 1 - pr.1, ord, ws);
    }
    GroupedOrdered(CoPoints(pairs, n, ord, ws));
  }

  /** A pair whose column is new gives a point that is new. */
  lemma CoPointsStep(pairs: set<(nat, nat)>, p: nat, i: nat, n: nat, ord: seq<Simplex>, ws: seq<real>)
    requires PairsFit(pairs, n, ord, ws) && p < n && i < n
    requires forall pr :: pr in pairs ==> i < pr.1
    ensures PairPoint(n - 1 - p, n - 1 - i, ord, ws) !in CoPoints(pairs, n, ord, ws)
    ensures (p, i) !in pairs
    ensures CoPoints(pairs + {(p, i)}, n, ord, ws) == CoPoints(pairs, n, ord, ws) + {PairPoint(n - 1 - p, n - 1 - i, ord, ws)}
  {
  }

  lemma OneMorePair(pairs: set<(nat, nat)>, pr: (nat, nat))
    requires pr !in pairs
    ensures |pairs + {pr}| == |pairs| + 1
  {
  }

  /**
   * A pass that finds indices `ind` pairs their least element `p` with `i`:
   * both are marked, `p` joins the other cocycles of `ind`, the invariant is
   * kept, and the pair gives one new point.
   */
  lemma PairedPass(st: CoState, B: seq<set<nat>>, n: nat, i: nat, ind: set<nat>, p: nat, ord: seq<Simplex>, ws: seq<real>)
    requires i < n && |B| == n && n == |ord| == |ws| && Good(st, n, i + 1)
    requires ind == XorOf(st.cocycles, Unmarked(B[n - 1 - i], n, st.marked)) && ind != {} && p == Extrema.Min(ind)
    ensures p < n && forall j :: j in ind ==> j < n
    ensures CoStep(st, B, n, i) == CoState(Extended(st.cocycles, ind, p), st.marked + {i} + {p}, st.pairs + {(p, i)})
    ensures Good(CoStep(st, B, n, i), n, i)
    ensures |st.pairs + {(p, i)}| == |st.pairs| + 1
    ensures PairsFit(st.pairs + {(p, i)}, n, ord, ws)
    ensures Grouped(CoPoints(st.pairs + {(p, i)}, n, ord, ws))
         == AddTo(Grouped(CoPoints(st.pairs, n, ord, ws)), PairPoint(n - 1 - p, n - 1 - i, ord, ws))
  {
    XorOfBelow(st.cocycles, Unmarked(B[n - 1 - i], n, st.marked), n);
    CoStepGood(st, B, n, i);
    CoPointsStep(st.pairs, p, i, n, ord, ws);
    GroupedAdd(CoPoints(st.pairs, n, ord, ws), PairPoint(n - 1 - p, n - 1 - i, ord, ws));
    OneMorePair(st.pairs, (p, i));
  }

  /**
   * One pass of the descending loop of `compute` for index `i`: the indices
   * are collected; if there are none nothing changes, else `i` and the least
   * index `p` are marked, the point for `(p, i)` is added to the diagram and
   * `p` joins the other cocycles involved.
   */
  method CoPass(d: PersDiag, C: seq<set<nat>>, marked: set<nat>, ghost pairs: set<(nat, nat)>,
                B: seq<set<nat>>, n: nat, i: nat, ord: seq<Simplex>, ws: seq<real>)
      returns (C': seq<set<nat>>, marked': set<nat>, ghost pairs': set<(nat, nat)>)
    requires i < n && |B| == n && RowsBelow(B, n) && n == |ord| == |ws|
    requires Good(CoState(C, marked, pairs), n, i + 1)
    requires d.Valid() && d.points == Grouped(CoPoints(pairs, n, ord, ws)) && d.pointCount == |pairs|
    modifies d
    ensures CoState(C', marked', pairs') == CoStep(CoState(C, marked, pairs), B, n, i)
    ensures Good(CoState(C', marked', pairs'), n, i)
    ensures d.Valid() && d.points == Grouped(CoPoints(pairs', n, ord, ws)) && d.pointCount == |pairs'|
  {
    var indices := CollectIndices(C, B[n - 1 - i], n, marked);
    if indices == {} {
      CoStepGood(CoState(C, marked, pairs), B, n, i);
      return C, marked, pairs;
    }
    var p: nat := Extrema.Min(indices);
    assert p < n by {
      PairedPass(CoState(C, marked, pairs), B, n, i, indices, p, ord, ws);
    }
    var point := PairPoint(n - 1 - p, n - 1 - i, ord, ws);
    d.AddPoint(point);
    C' := ExtendCocycles(C, indices, p);
    marked' := marked + {i} + {p};
    pairs' := pairs + {(p, i)};
    assert CoState(C', marked', pairs') == CoStep(CoState(C, marked, pairs), B, n, i)
        && Good(CoState(C', marked', pairs'), n, i)
        && d.points == Grouped(CoPoints(pairs', n, ord, ws)) && d.pointCount == |pairs'| by {
      PairedPass(CoState(C, marked, pairs), B, n, i, indices, p, ord, ws);
    }
  }

  /** All passes of the cocycle sweep, from the last simplex down to the first, filing each pair in a fresh diagram. */
  method CoReduce(B: seq<set<nat>>, n: nat, ord: seq<Simplex>, ws: seq<real>) returns (d: PersDiag)
    requires |B| == n && RowsBelow(B, n) && n == |ord| == |ws|
    ensures fresh(d) && d.Valid() && Good(CoRun(B, n, 0), n, 0)
    ensures d.points == Grouped(CoPoints(CoRun(B, n, 0).pairs, n, ord, ws))
    ensures d.pointCount == |CoRun(B, n, 0).pairs|
  {
    var cocycles: seq<set<nat>> := seq(n, k => {k});
    var marked: set<nat> := {};
    ghost var pairs: set<(nat, nat)> := {};
    d := new PersDiag();
    GroupedCounts({});
    assert CoPoints(pairs, n, ord, ws) == {};
    var i := n;
    while i > 0
      invariant 0 <= i <= n && fresh(d)
      invariant CoRun(B, n, i) == CoState(cocycles, marked, pairs)
      invariant Good(CoState(cocycles, marked, pairs), n, i)
      invariant d.Valid() && d.points == Grouped(CoPoints(pairs, n, ord, ws)) && d.pointCount == |pairs|
    {
      i := i - 1;
      cocycles, marked, pairs := CoPass(d, cocycles, marked, pairs, B, n, i, ord, ws);
    }
  }

  class PersHom4 {
    /** `__simplex_ordering`. */
    const ordering: seq<Simplex>
    /** `__weights`. */
    const weights: seq<real>
    /** `__simplex_count`. */
    const count: nat
    /** `__dim`: the largest dimension of the complex; `compute` does not read it. */
    const dim: int
    /** `__boundary_matrix`: the facet positions of each simplex. */
    const boundary: seq<set<nat>>
    /** `__coboundary_matrix`: the anti-transpose of the boundary. */
    const coboundary: seq<set<nat>>
    /** `_pers_diag`: null until `compute`. */
    var diag: PersDiag?

    ghost predicate Valid()
      reads this
    {
      count == |ordering| == |weights| && RowsBelow(boundary, count) && AntiTransposed(boundary, coboundary, count)
    }

    constructor (ordering: seq<Simplex>, weights: seq<real>, dim: int, boundary: seq<set<nat>>, coboundary: seq<set<nat>>)
      requires |weights| == |ordering| && RowsBelow(boundary, |ordering|) && AntiTransposed(boundary, coboundary, |ordering|)
      ensures Valid() && diag == null && this.dim == dim
      ensures this.ordering == ordering && this.weights == weights && this.boundary == boundary && this.coboundary == coboundary
    {
      this.ordering := ordering;
      this.weights := weights;
      this.count := |ordering|;
      this.dim := dim;
      this.boundary := boundary;
      this.coboundary := coboundary;
      diag := null;
    }

    /**
     * `compute`: every cocycle starts as its own index and nothing is marked;
     * the indices are visited from `n - 1` down to `0`. The diagram ends with
     * one point per pair of the run, and the run keeps its invariant.
     */
    method Compute()
      requires Valid()
      modifies this
      ensures Valid() && Good(CoRun(boundary, count, 0), count, 0)
      ensures diag != null && fresh(diag) && diag.Valid()
      ensures PairsFit(CoRun(boundary, count, 0).pairs, count, ordering, weights)
      ensures diag.points == Grouped(CoPoints(CoRun(boundary, count, 0).pairs, count, ordering, weights))
      ensures diag.pointCount == |CoRun(boundary, count, 0).pairs|
      ensures Triangular(boundary) && Ascending(weights) ==> PointsOrdered(diag.points)
    {
      diag := CoReduce(boundary, count, ordering, weights);
      if Triangular(boundary) && Ascending(weights) {
        CoRunForward(boundary, count, 0);
        CoPointsOrdered(CoRun(boundary, count, 0).pairs, count, ordering, weights);
      }
    }
  }

  /** Why `PersHom4(filtered_complex)` raises: `dim` of a complex with no simplices, or a missing facet. */
  datatype InitError = NoSimplices | Boundary(error: BoundaryError)

  /**
   * `PersHom4(filtered_complex)`: the ordering, the dimension, the weights,
   * the sparse boundary and its anti-transpose. It raises on a complex with
   * no simplices (reading `dim` takes the `max` of no dimensions), and
   * otherwise exactly when some stored simplex has a facet, other than the
   * empty simplex, that is not stored.
   */
  method NewPersHom4(fc: FilteredComplexes.FilteredComplex) returns (r: Result<PersHom4, InitError>)
    requires fc.Valid()
    ensures r.Failure? && r.error == NoSimplices <==> fc.simplices == map[]
    ensures r.Success? <==> fc.simplices != map[] && FacetClosed(fc.weights.Keys)
    ensures r.Success? ==> fresh(r.value) && r.value.Valid() && r.value.diag == null && r.value.dim == fc.Dim()
    ensures r.Success? ==> Enumerates(r.value.ordering, fc.weights.Keys)
    ensures r.Success? ==> forall i :: 0 <= i < r.value.count ==>
              r.value.weights[i] == fc.weights[r.value.ordering[i]] && r.value.boundary[i] == FacetPositions(r.value.ordering, i)
    ensures r.Success? ==> Ascending(r.value.weights)
    ensures r.Success? ==> (FacetsFirst(r.value.ordering) <==> Triangular(r.value.boundary))
  {
    var ord := fc.GetSimplexOrdering();
    if fc.simplices == map[] {
      return Failure(NoSimplices);
    }
    var d := fc.Dim();
    var ws := fc.GetWeightOrdering();
    FilteredComplexes.OrderingsAligned(fc.weights, ord, ws);
    ListedIffClosed(ord, fc.weights.Keys);
    var b := SparseBoundary(ord);
    if b.Failure? {
      return Failure(Boundary(b.error));
    }
    FacetsFirstIffTriangular(ord, b.value);
    var ph := Assemble(ord, ws, d, b.value);
    return Success(ph);
  }

  /** The last lines of the constructor: the coboundary, then the stored fields. */
  method Assemble(ord: seq<Simplex>, ws: seq<real>, d: int, B: seq<set<nat>>) returns (ph: PersHom4)
    requires |ws| == |ord| == |B| && RowsBelow(B, |ord|)
    ensures fresh(ph) && ph.Valid() && ph.diag == null && ph.dim == d
    ensures ph.ordering == ord && ph.weights == ws && ph.boundary == B
  {
    var cob := AntiTranspose(B, |ord|);
    ph := new PersHom4(ord, ws, d, B, cob);
  }
}
