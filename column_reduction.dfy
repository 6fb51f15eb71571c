/**
 * The standard column reduction of a boundary matrix over Z/2 (Zomorodian and
 * Carlsson, "Computing Persistent Homology", 2005), stated as functions on
 * columns. A column is the set of rows holding a 1; adding two columns mod 2
 * is their symmetric difference. The reducers of PersHom1, PersHom2 and
 * PersHomZ2Old are proved to compute `Reduce` below.
 */
module ColumnReduction {
  import opened Wrappers
  import Extrema

  /** The last row holding a 1 (`__get_last_in_col`), or None for a zero column. */
  function Low(c: set<nat>): (r: Option<nat>)
    ensures r.None? <==> c == {}
    ensures r.Some? ==> r.value in c && forall x :: x in c ==> x <= r.value
  {
    if c == {} then None
    else
      var m := Extrema.Max(c);
      Some(m)
  }

  /** `R_i <- R_i + R_j` over Z/2: the rows holding a 1 in exactly one of the two columns. */
  function SymDiff(a: set<nat>, b: set<nat>): (r: set<nat>)
    ensures forall x :: x in r <==> (x in a <==> x !in b)
  {
    (a - b) + (b - a)
  }

  /** One more than the last row of a column, 0 for a zero column: what each reduction step lowers. */
  function Height(c: set<nat>): nat {
    if c == {} then 0 else Low(c).value + 1
  }

  /** Adding a column with the same last row cancels that row and leaves only rows above it. */
  lemma LowDrops(a: set<nat>, b: set<nat>)
    requires a != {} && Low(a) == Low(b)
    ensures Height(SymDiff(a, b)) < Height(a)
  {
    var m := Low(a).value;
    var c := SymDiff(a, b);
    if c != {} {
      var t := Low(c).value;
      assert t in a || t in b;
      assert t != m;
    }
  }

  /** `low` maps each row to a column whose last row it is. */
  ghost predicate Paired(R: seq<set<nat>>, low: map<nat, nat>) {
    forall r :: r in low ==> low[r] < |R| && Low(R[low[r]]) == Some(r)
  }

  /**
   * The inner `while` loop: keep adding the column paired with the current
   * last row until the column is zero or its last row is unpaired. It stops
   * because every step lowers the last row.
   */
  ghost function Settle(R: seq<set<nat>>, low: map<nat, nat>, c: set<nat>): (r: set<nat>)
    requires Paired(R, low)
    ensures r == {} || Low(r).value !in low
    ensures Height(r) <= Height(c)
    decreases Height(c)
  {
    if c == {} then c
    else
      var m := Low(c).value;
      if m in low then
        LowDrops(c, R[low[m]]);
        Settle(R, low, SymDiff(c, R[low[m]]))
      else c
  }

  /** A zero column, or one whose last row is unpaired, is already settled. */
  lemma SettledAlready(R: seq<set<nat>>, low: map<nat, nat>, c: set<nat>)
    requires Paired(R, low) && (c == {} || Low(c).value !in low)
    ensures Settle(R, low, c) == c
  {
  }

  /** The reduced columns and the pairing from last row to column. */
  datatype Reduced = Reduced(cols: seq<set<nat>>, low: map<nat, nat>)

  /**
   * The state of `compute` after its first `i` columns: each of them settled
   * in turn against the columns before it, and each non-zero one paired with
   * its last row.
   */
  ghost function Reduce(D: seq<set<nat>>, i: nat): (st: Reduced)
    requires i <= |D|
    ensures |st.cols| == |D|
    ensures forall c :: i <= c < |D| ==> st.cols[c] == D[c]
    ensures Paired(st.cols, st.low)
    ensures forall r :: r in st.low ==> st.low[r] < i
    ensures forall c :: 0 <= c < i && st.cols[c] != {} ==> Low(st.cols[c]).value in st.low && st.low[Low(st.cols[c]).value] == c
    decreases i
  {
    if i == 0 then Reduced(D, map[])
    else
      var prev := Reduce(D, i - 1);
      var c := Settle(prev.cols, prev.low, prev.cols[i - 1]);
      Reduced(prev.cols[i - 1 := c], if c == {} then prev.low else prev.low[Low(c).value := i - 1])
  }

  /** One more column of `compute`: settle column `i` against the state so far, then pair its last row with it. */
  lemma ReduceStep(D: seq<set<nat>>, i: nat, cols: seq<set<nat>>, low: map<nat, nat>, c: set<nat>)
    requires i < |D| && Reduce(D, i) == Reduced(cols, low)
    requires c == Settle(cols, low, cols[i])
    ensures Reduce(D, i + 1) == Reduced(cols[i := c], if c == {} then low else low[Low(c).value := i])
  {
  }

  /** After the reduction, no two non-zero columns share their last row. */
  lemma LowsDistinct(D: seq<set<nat>>)
    ensures var R := Reduce(D, |D|).cols;
            forall a, b :: 0 <= a < b < |D| && R[a] != {} && R[b] != {} ==> Low(R[a]) != Low(R[b])
  {
  }

  /** The pairing is injective: no column is the partner of two rows. */
  lemma PairingInjective(D: seq<set<nat>>)
    ensures var low := Reduce(D, |D|).low;
            forall r, s :: r in low && s in low && r != s ==> low[r] != low[s]
  {
  }

  /** Every row of every column is below `n`. */
  ghost predicate RowsBelow(cols: seq<set<nat>>, n: nat) {
    forall c, r :: 0 <= c < |cols| && r in cols[c] ==> r < n
  }

  /** Settling a column against columns with rows below `n` keeps its rows below `n`. */
  lemma {:induction false} SettleBelow(R: seq<set<nat>>, low: map<nat, nat>, c: set<nat>, n: nat)
    requires Paired(R, low) && RowsBelow(R, n) && forall r :: r in c ==> r < n
    ensures forall r :: r in Settle(R, low, c) ==> r < n
    decreases Height(c)
  {
    if c != {} {
      var m := Low(c).value;
      if m in low {
        LowDrops(c, R[low[m]]);
        SettleBelow(R, low, SymDiff(c, R[low[m]]), n);
      }
    }
  }

  /** Every recorded lowest row is below `n`. */
  ghost predicate LowsBelow(low: map<nat, nat>, n: nat) {
    forall r :: r in low ==> r < n
  }

  /** Reducing a matrix whose rows are below `n` keeps every row, and so every paired row, below `n`. */
  lemma {:induction false} ReduceBelow(D: seq<set<nat>>, i: nat, n: nat)
    requires i <= |D| && RowsBelow(D, n)
    ensures RowsBelow(Reduce(D, i).cols, n)
    ensures LowsBelow(Reduce(D, i).low, n)
    decreases i
  {
    if i > 0 {
      var j := i - 1;
      ReduceBelow(D, j, n);
      BelowNext(D, j, n);
      assert j + 1 == i;
    }
  }

  /** Settling column `j` keeps every row below `n`. */
  lemma BelowNext(D: seq<set<nat>>, j: nat, n: nat)
    requires j < |D| && RowsBelow(Reduce(D, j).cols, n)
    ensures RowsBelow(Reduce(D, j + 1).cols, n) && LowsBelow(Reduce(D, j + 1).low, n)
  {
    var prev := Reduce(D, j);
    var c := Settle(prev.cols, prev.low, prev.cols[j]);
    ReduceStep(D, j, prev.cols, prev.low, c);
    SettleBelow(prev.cols, prev.low, prev.cols[j], n);
    var st := Reduce(D, j + 1);
    forall r | r in st.low ensures r < n {
      assert Low(st.cols[st.low[r]]) == Some(r);
    }
  }

  /** Every row in `c` is graded `g`. */
  ghost predicate RowsAt(c: set<nat>, grade: seq<int>, g: int) {
    forall r :: r in c ==> r < |grade| && grade[r] == g
  }

  /** Every row of column `c` has grade one below the grade of `c` (as a boundary matrix does with dimensions). */
  ghost predicate Graded(cols: seq<set<nat>>, grade: seq<int>) {
    |cols| <= |grade| && forall c :: 0 <= c < |cols| ==> ColumnGraded(cols, grade, c)
  }

  /** Column `c` has its rows one grade below its own grade. */
  ghost predicate ColumnGraded(cols: seq<set<nat>>, grade: seq<int>, c: nat) {
    c < |cols| && c < |grade| && RowsAt(cols[c], grade, grade[c] - 1)
  }

  /** Settling a column whose rows all have grade `g` against graded columns keeps that so. */
  lemma {:induction false} SettleGraded(R: seq<set<nat>>, low: map<nat, nat>, c: set<nat>, grade: seq<int>, g: int)
    requires Paired(R, low) && Graded(R, grade) && RowsAt(c, grade, g)
    ensures RowsAt(Settle(R, low, c), grade, g)
    decreases Height(c)
  {
    if c != {} {
      var m := Low(c).value;
      if m in low {
        var k := low[m];
        assert ColumnGraded(R, grade, k);
        assert m in R[k];
        LowDrops(c, R[k]);
        SettleGraded(R, low, SymDiff(c, R[k]), grade, g);
      }
    }
  }

  /**
   * Reducing a graded matrix keeps it graded, so every pair joins a row to a
   * column exactly one grade above it.
   */
  lemma {:induction false} ReduceGraded(D: seq<set<nat>>, i: nat, grade: seq<int>)
    requires i <= |D| && Graded(D, grade)
    ensures Graded(Reduce(D, i).cols, grade)
    ensures forall r :: r in Reduce(D, i).low ==> r < |grade| && grade[Reduce(D, i).low[r]] == grade[r] + 1
  {
    ReduceKeepsGraded(D, i, grade);
    PairsGraded(Reduce(D, i), grade);
  }

  lemma {:induction false} ReduceKeepsGraded(D: seq<set<nat>>, i: nat, grade: seq<int>)
    requires i <= |D| && Graded(D, grade)
    ensures Graded(Reduce(D, i).cols, grade)
    decreases i
  {
    if i > 0 {
      var j := i - 1;
      ReduceKeepsGraded(D, j, grade);
      GradedNext(D, j, grade);
      assert j + 1 == i;
    }
  }

  /** Settling column `j` of a graded state leaves the next state graded. */
  lemma GradedNext(D: seq<set<nat>>, j: nat, grade: seq<int>)
    requires j < |D| && Graded(Reduce(D, j).cols, grade)
    ensures Graded(Reduce(D, j + 1).cols, grade)
  {
    var prev := Reduce(D, j);
    var c := Settle(prev.cols, prev.low, prev.cols[j]);
    ReduceStep(D, j, prev.cols, prev.low, c);
    SettleKeepsGraded(prev.cols, prev.low, j, grade);
  }

  lemma SettleKeepsGraded(cols: seq<set<nat>>, low: map<nat, nat>, k: nat, grade: seq<int>)
    requires Paired(cols, low) && Graded(cols, grade) && k < |cols|
    ensures Graded(cols[k := Settle(cols, low, cols[k])], grade)
  {
    assert ColumnGraded(cols, grade, k);
    var settled := cols[k := Settle(cols, low, cols[k])];
    SettleGraded(cols, low, cols[k], grade, grade[k] - 1);
    forall c | 0 <= c < |settled| ensures ColumnGraded(settled, grade, c) {
      assert ColumnGraded(cols, grade, c);
    }
  }

  lemma PairsGraded(st: Reduced, grade: seq<int>)
    requires Paired(st.cols, st.low) && Graded(st.cols, grade)
    ensures forall r :: r in st.low ==> r < |grade| && grade[st.low[r]] == grade[r] + 1
  {
    forall r | r in st.low ensures r < |grade| && grade[st.low[r]] == grade[r] + 1 {
      var k := st.low[r];
      assert Low(st.cols[k]) == Some(r);
      assert ColumnGraded(st.cols, grade, k);
    }
  }

  /** Every row of column `c` lies above it (`r < c`): a boundary whose facets come first. */
  ghost predicate Triangular(cols: seq<set<nat>>) {
    forall c, r :: 0 <= c < |cols| && r in cols[c] ==> r < c
  }

  /** Every pair joins a row to a later column: birth comes before death. */
  ghost predicate LowsForward(low: map<nat, nat>) {
    forall r :: r in low ==> r < low[r]
  }

  /** Settling a column with rows above `k` against earlier columns keeps its rows above `k`. */
  lemma {:induction false} SettleTriangular(R: seq<set<nat>>, low: map<nat, nat>, c: set<nat>, k: nat)
    requires Paired(R, low) && Triangular(R)
    requires (forall r :: r in low ==> low[r] < k) && (forall r :: r in c ==> r < k)
    ensures forall r :: r in Settle(R, low, c) ==> r < k
    decreases Height(c)
  {
    if c != {} {
      var m := Low(c).value;
      if m in low {
        var j := low[m];
        assert forall r :: r in R[j] ==> r < j;
        LowDrops(c, R[j]);
        SettleTriangular(R, low, SymDiff(c, R[j]), k);
      }
    }
  }

  /** Settling column `j` of a triangular state leaves the next state triangular. */
  lemma TriangularNext(D: seq<set<nat>>, j: nat)
    requires j < |D| && Triangular(Reduce(D, j).cols)
    ensures Triangular(Reduce(D, j + 1).cols)
  {
    var prev := Reduce(D, j);
    var c := Settle(prev.cols, prev.low, prev.cols[j]);
    ReduceStep(D, j, prev.cols, prev.low, c);
    SettleKeepsTriangular(prev.cols, prev.low, j);
  }

  lemma SettleKeepsTriangular(cols: seq<set<nat>>, low: map<nat, nat>, k: nat)
    requires Paired(cols, low) && Triangular(cols) && k < |cols|
    requires forall r :: r in low ==> low[r] < k
    ensures Triangular(cols[k := Settle(cols, low, cols[k])])
  {
    SettleTriangular(cols, low, cols[k], k);
  }

  lemma {:induction false} ReduceKeepsTriangular(D: seq<set<nat>>, i: nat)
    requires i <= |D| && Triangular(D)
    ensures Triangular(Reduce(D, i).cols)
    decreases i
  {
    if i > 0 {
      var j := i - 1;
      ReduceKeepsTriangular(D, j);
      TriangularNext(D, j);
      assert j + 1 == i;
    }
  }

  /**
   * Reducing a triangular matrix keeps it triangular, so every pair joins a
   * row to a later column: the simplex giving birth precedes the one killing it.
   */
  lemma ReduceForward(D: seq<set<nat>>, i: nat)
    requires i <= |D| && Triangular(D)
    ensures Triangular(Reduce(D, i).cols)
    ensures LowsForward(Reduce(D, i).low)
  {
    ReduceKeepsTriangular(D, i);
    var st := Reduce(D, i);
    forall r | r in st.low ensures r < st.low[r] {
      assert Low(st.cols[st.low[r]]) == Some(r);
    }
  }
}

