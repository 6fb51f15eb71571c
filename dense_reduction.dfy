/**
 * The column reduction of PersHom1 and PersHomZ2Old
 * (PersistentHomology/PersHom1.py, PersistentHomology/PersHomZ2Old.py), on a
 * dense 0/1 matrix held in a two-dimensional array and changed in place. A
 * column of the array is read as the set of rows holding a 1, and the
 * reduction is proved to compute `ColumnReduction.Reduce` on those sets.
 */
module DenseReduction {
  import opened Wrappers
  import opened ColumnReduction

  /** The rows below `j` of column `c` that hold a 1. */
  ghost function ColumnBelow(a: array2<bool>, c: nat, j: nat): set<nat>
    requires c < a.Length1 && j <= a.Length0
    reads a
  {
    set r: nat | r < j && a[r, c]
  }

  /** Column `c` of `a` as the set of rows holding a 1. */
  ghost function Column(a: array2<bool>, c: nat): set<nat>
    requires c < a.Length1
    reads a
  {
    ColumnBelow(a, c, a.Length0)
  }

  /** The columns of `a` are the sets `cols`. */
  ghost predicate Mirrors(a: array2<bool>, cols: seq<set<nat>>)
    reads a
  {
    a.Length1 == |cols| && forall c :: 0 <= c < |cols| ==> Column(a, c) == cols[c]
  }

  /** Reading one more row moves the last 1 down to it exactly when it holds a 1. */
  lemma ColumnBelowStep(a: array2<bool>, c: nat, j: nat)
    requires c < a.Length1 && j < a.Length0
    ensures Low(ColumnBelow(a, c, j + 1)) == if a[j, c] then Some(j) else Low(ColumnBelow(a, c, j))
  {
    var s := ColumnBelow(a, c, j);
    if a[j, c] {
      assert ColumnBelow(a, c, j + 1) == s + {j};
    } else {
      assert ColumnBelow(a, c, j + 1) == s;
    }
  }

  /**
   * `__get_last_in_col` / `__get_last_1_in_array`: None for a zero column,
   * else the largest row holding a 1.
   */
  method LastOne(a: array2<bool>, i: nat) returns (r: Option<nat>)
    requires i < a.Length1
    ensures r == Low(Column(a, i))
  {
    r := None;
    var j := 0;
    while j < a.Length0
      invariant 0 <= j <= a.Length0
      invariant r == Low(ColumnBelow(a, i, j))
    {
      ColumnBelowStep(a, i, j);
      if a[j, i] {
        r := Some(j);
      }
      j := j + 1;
    }
  }

  /**
   * `__add_col` / `__add_col_op_mod_2`: column `x` becomes the sum mod 2 of
   * columns `x` and `y`; no other column changes.
   */
  method AddColMod2(a: array2<bool>, x: nat, y: nat, ghost cols: seq<set<nat>>)
    requires x < a.Length1 && y < a.Length1 && Mirrors(a, cols)
    modifies a
    ensures Mirrors(a, cols[x := SymDiff(cols[x], cols[y])])
  {
    var r := 0;
    while r < a.Length0
      invariant 0 <= r <= a.Length0
      invariant forall j, c :: 0 <= j < a.Length0 && 0 <= c < a.Length1 ==>
                  a[j, c] == if c == x && j < r then old(a[j, x]) != old(a[j, y]) else old(a[j, c])
    {
      a[r, x] := a[r, x] != a[r, y];
      r := r + 1;
    }
    forall c | 0 <= c < a.Length1
      ensures Column(a, c) == cols[x := SymDiff(cols[x], cols[y])][c]
    {
      if c == x {
        assert forall j :: j in Column(a, c) <==> (j in old(Column(a, x)) <==> j !in old(Column(a, y)));
      } else {
        assert forall j :: j in Column(a, c) <==> j in old(Column(a, c));
      }
    }
  }

  /**
   * The `while` loop of `compute` / `reduce_boundary`: while the last 1 of
   * column `i` is paired, add the column it is paired with. Column `i` ends
   * settled against the earlier columns; no other column changes.
   */
  method SettleDense(a: array2<bool>, i: nat, low: map<nat, nat>, ghost R: seq<set<nat>>) returns (last: Option<nat>)
    requires i < |R| && Mirrors(a, R) && Paired(R, low)
    requires forall r :: r in low ==> low[r] < i
    modifies a
    ensures Mirrors(a, R[i := Settle(R, low, R[i])])
    ensures last == Low(Settle(R, low, R[i]))
  {
    ghost var cur := R[i];
    assert R[i := cur] == R;
    last := LastOne(a, i);
    while last.Some? && last.value in low
      invariant Mirrors(a, R[i := cur])
      invariant last == Low(cur)
      invariant Settle(R, low, cur) == Settle(R, low, R[i])
      decreases Height(cur)
    {
      var competing := low[last.value];
      LowDrops(cur, R[competing]);
      AddColMod2(a, i, competing, R[i := cur]);
      assert R[i := cur][i := SymDiff(cur, R[competing])] == R[i := SymDiff(cur, R[competing])];
      cur := SymDiff(cur, R[competing]);
      last := LastOne(a, i);
    }
  }

  /** `boundary.copy()`: a fresh array with the same entries. */
  method CopyMatrix(b: array2<bool>, ghost cols: seq<set<nat>>) returns (w: array2<bool>)
    requires b.Length0 == b.Length1 && Mirrors(b, cols)
    ensures fresh(w) && w.Length0 == b.Length0 && w.Length1 == b.Length1 && Mirrors(w, cols)
  {
    w := new bool[b.Length0, b.Length1]((r, c) requires 0 <= r < b.Length0 && 0 <= c < b.Length1 reads b => b[r, c]);
    forall c | 0 <= c < w.Length1 ensures Column(w, c) == cols[c] {
      assert forall r :: r in Column(w, c) <==> r in Column(b, c);
    }
  }

  /**
   * One pass of the `for` loop of PersHom1 `compute` and PersHomZ2Old
   * `reduce_boundary`: a zero column is skipped, a column whose last 1 is
   * unpaired is paired at once, and any other column is settled first and
   * then paired if it is not zero. The state moves from the first `i`
   * columns of the reduction to the first `i + 1`.
   */
  method ReduceColumn(a: array2<bool>, i: nat, low: map<nat, nat>, ghost D: seq<set<nat>>, ghost R: seq<set<nat>>)
      returns (low': map<nat, nat>, ghost R': seq<set<nat>>)
    requires i < |D| && Mirrors(a, R) && Reduce(D, i) == Reduced(R, low)
    modifies a
    ensures Mirrors(a, R') && Reduce(D, i + 1) == Reduced(R', low')
  {
    var last := LastOne(a, i);
    if last.None? || last.value !in low {
      SettledAlready(R, low, R[i]);
      ReduceStep(D, i, R, low, R[i]);
      assert R[i := R[i]] == R;
      R' := R;
      low' := if last.Some? then low[last.value := i] else low;
    } else {
      last := SettleDense(a, i, low, R);
      ReduceStep(D, i, R, low, Settle(R, low, R[i]));
      R' := R[i := Settle(R, low, R[i])];
      low' := if last.Some? then low[last.value := i] else low;
    }
  }

  /**
   * The reduction loop of PersHom1 `compute` and PersHomZ2Old
   * `reduce_boundary`, on a square array whose columns are `D`. The array
   * ends holding the reduced columns and `low` is the pairing of the
   * reduction.
   */
  method ReduceDense(a: array2<bool>, ghost D: seq<set<nat>>) returns (low: map<nat, nat>)
    requires a.Length0 == a.Length1 && Mirrors(a, D)
    modifies a
    ensures Mirrors(a, Reduce(D, |D|).cols)
    ensures low == Reduce(D, |D|).low
  {
    low := map[];
    var i := 0;
    ghost var cols := D;
    while i < a.Length1
      invariant 0 <= i <= a.Length1 == |D|
      invariant Mirrors(a, cols)
      invariant Reduce(D, i) == Reduced(cols, low)
    {
      low, cols := ReduceColumn(a, i, low, D, cols);
      i := i + 1;
    }
  }
}
