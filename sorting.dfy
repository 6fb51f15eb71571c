/**
 * Python's `sorted(xs, key=...)`: a stable sort by a real-valued key, and the
 * facts about sorted permutations that align the two orderings of a filtered
 * complex.
 */
module Sorting {
  import Extrema

  ghost predicate SortedBy<T>(s: seq<T>, key: T -> real) {
    forall i, j :: 0 <= i < j < |s| ==> key(s[i]) <= key(s[j])
  }

  ghost predicate Ascending(s: seq<real>) {
    forall i, j :: 0 <= i < j < |s| ==> s[i] <= s[j]
  }

  ghost predicate Distinct<T>(s: seq<T>) {
    forall i, j :: 0 <= i < j < |s| ==> s[i] != s[j]
  }

  /** `ks` lists every element of `S` exactly once. */
  ghost predicate Enumerates<T>(ks: seq<T>, S: set<T>) {
    Distinct(ks) && (forall x :: x in ks ==> x in S) && (forall x :: x in S ==> x in ks)
  }

  /** The keys of `ks`, position by position. */
  function Along<T>(ks: seq<T>, key: T -> real): (r: seq<real>)
    ensures |r| == |ks|
  {
    seq(|ks|, i requires 0 <= i < |ks| => key(ks[i]))
  }

  /** `list(S)`: the elements of a set in some order, each once. */
  method ListOf<T>(S: set<T>) returns (ks: seq<T>)
    ensures Enumerates(ks, S)
  {
    ks := [];
    var todo := S;
    while todo != {}
      invariant todo <= S && Distinct(ks)
      invariant forall x :: x in ks <==> x in S && x !in todo
      decreases |todo|
    {
      var x := Extrema.Choose(todo);
      ks := ks + [x];
      todo := todo - {x};
    }
  }

  /** Listing two disjoint sets one after the other lists their union. */
  lemma EnumeratesConcat<T>(a: seq<T>, A: set<T>, b: seq<T>, B: set<T>)
    requires Enumerates(a, A) && Enumerates(b, B) && A !! B
    ensures Enumerates(a + b, A + B)
  {
    var c := a + b;
    forall i, j | 0 <= i < j < |c| ensures c[i] != c[j] {
      if j < |a| {
      } else if i >= |a| {
        assert c[i] == b[i - |a|] && c[j] == b[j - |a|];
      } else {
        assert c[i] in A && c[j] == b[j - |a|] && c[j] in B;
      }
    }
  }

  /** Inserts `x` after every element whose key does not exceed its own (keeps the sort stable). */
  method InsertSorted<T>(r: seq<T>, x: T, key: T -> real) returns (r': seq<T>)
    requires SortedBy(r, key)
    ensures SortedBy(r', key)
    ensures multiset(r') == multiset(r) + multiset{x}
  {
    var j := 0;
    while j < |r| && key(r[j]) <= key(x)
      invariant 0 <= j <= |r|
      invariant forall k :: 0 <= k < j ==> key(r[k]) <= key(x)
    {
      j := j + 1;
    }
    r' := r[..j] + [x] + r[j..];
    InsertedSorted(r, x, j, key);
    assert r == r[..j] + r[j..];
  }

  lemma InsertedSorted<T>(r: seq<T>, x: T, j: nat, key: T -> real)
    requires j <= |r| && SortedBy(r, key)
    requires forall k :: 0 <= k < j ==> key(r[k]) <= key(x)
    requires j < |r| ==> key(x) < key(r[j])
    ensures SortedBy(r[..j] + [x] + r[j..], key)
  {
    var r' := r[..j] + [x] + r[j..];
    assert forall a :: 0 <= a < j ==> r'[a] == r[a];
    assert r'[j] == x;
    assert forall a :: j < a < |r'| ==> r'[a] == r[a - 1];
    forall a, b | 0 <= a < b < |r'| ensures key(r'[a]) <= key(r'[b]) {
      if b < j {
      } else if b == j {
      } else if a == j {
        assert key(r[j]) <= key(r[b - 1]);
      } else {
      }
    }
  }

  /** `sorted(xs, key=key)`: an ordering of `xs` by ascending key. */
  method SortBy<T>(xs: seq<T>, key: T -> real) returns (r: seq<T>)
    ensures SortedBy(r, key)
    ensures multiset(r) == multiset(xs)
  {
    r := [];
    for i := 0 to |xs|
      invariant SortedBy(r, key)
      invariant multiset(r) == multiset(xs[..i])
    {
      r := InsertSorted(r, xs[i], key);
      assert xs[..i + 1] == xs[..i] + [xs[i]];
    }
    assert xs[..|xs|] == xs;
  }

  /** Sorting reals by themselves puts them in ascending order. */
  lemma SortedByValue(s: seq<real>)
    requires SortedBy(s, x => x)
    ensures Ascending(s)
  {
    forall i, j | 0 <= i < j < |s| ensures s[i] <= s[j] {
      assert (x => x)(s[i]) <= (x => x)(s[j]);
    }
  }

  lemma {:induction false} DistinctCounts<T>(s: seq<T>)
    requires Distinct(s)
    ensures forall x :: multiset(s)[x] == if x in s then 1 else 0
    decreases |s|
  {
    if s != [] {
      assert Distinct(s[1..]);
      DistinctCounts(s[1..]);
      assert s == [s[0]] + s[1..];
      assert s[0] !in s[1..];
    }
  }

  lemma RepeatCounts<T>(s: seq<T>, i: nat, j: nat)
    requires i < j < |s|
    ensures s[i] == s[j] ==> multiset(s)[s[i]] >= 2
  {
    assert s == s[..i] + [s[i]] + s[i + 1..j] + [s[j]] + s[j + 1..];
  }

  lemma CountsDistinct<T>(s: seq<T>)
    requires forall x :: multiset(s)[x] <= 1
    ensures Distinct(s)
  {
    forall i, j | 0 <= i < j < |s| ensures s[i] != s[j] {
      RepeatCounts(s, i, j);
    }
  }

  /** A permutation of a repetition-free sequence is repetition-free. */
  lemma PermutationKeepsDistinct<T>(a: seq<T>, b: seq<T>)
    requires Distinct(a) && multiset(a) == multiset(b)
    ensures Distinct(b)
    ensures forall x :: x in a <==> x in b
  {
    DistinctCounts(a);
    CountsDistinct(b);
    forall x ensures x in a <==> x in b {
      assert x in a <==> x in multiset(a);
      assert x in b <==> x in multiset(b);
    }
  }

  /** Two enumerations of one set are permutations of each other. */
  lemma EnumerationsPermute<T>(a: seq<T>, b: seq<T>, S: set<T>)
    requires Enumerates(a, S) && Enumerates(b, S)
    ensures multiset(a) == multiset(b)
  {
    DistinctCounts(a);
    DistinctCounts(b);
  }

  lemma AlongConcat<T>(a: seq<T>, b: seq<T>, key: T -> real)
    ensures Along(a + b, key) == Along(a, key) + Along(b, key)
  {
  }

  /** Permuting the elements permutes their keys. */
  lemma {:induction false} AlongPermutes<T>(a: seq<T>, b: seq<T>, key: T -> real)
    requires multiset(a) == multiset(b)
    ensures multiset(Along(a, key)) == multiset(Along(b, key))
    decreases |a|
  {
    if a == [] {
      assert |b| == |multiset(b)| == 0;
    } else {
      var x := a[0];
      assert x in multiset(b);
      var k :| 0 <= k < |b| && b[k] == x;
      var b' := b[..k] + b[k + 1..];
      assert b == b[..k] + [x] + b[k + 1..];
      assert a == [x] + a[1..];
      assert multiset(a[1..]) == multiset(b') by {
        assert multiset(a) == multiset{x} + multiset(a[1..]);
        assert multiset(b) == multiset(b[..k]) + multiset{x} + multiset(b[k + 1..]);
        assert multiset(b') == multiset(b[..k]) + multiset(b[k + 1..]);
        forall y ensures multiset(a[1..])[y] == multiset(b')[y] {
          assert multiset(a)[y] == multiset{x}[y] + multiset(a[1..])[y];
        }
      }
      AlongPermutes(a[1..], b', key);
      AlongConcat([x], a[1..], key);
      AlongConcat(b[..k] + [x], b[k + 1..], key);
      AlongConcat(b[..k], [x], key);
      AlongConcat(b[..k], b[k + 1..], key);
    }
  }

  /** The head of an ascending sequence is its least value. */
  lemma AscendingHeadLeast(a: seq<real>, v: real)
    requires Ascending(a) && v in multiset(a)
    ensures a[0] <= v
  {
    var j :| 0 <= j < |a| && a[j] == v;
    assert j == 0 || a[0] <= a[j];
  }

  lemma AscendingTail(a: seq<real>)
    requires Ascending(a) && a != []
    ensures Ascending(a[1..])
  {
    forall i, j | 0 <= i < j < |a| - 1 ensures a[1..][i] <= a[1..][j] {
      assert a[1..][i] == a[i + 1] && a[1..][j] == a[j + 1];
    }
  }

  lemma SameHeadTails<T>(a: seq<T>, b: seq<T>)
    requires a != [] && b != [] && a[0] == b[0] && multiset(a) == multiset(b)
    ensures multiset(a[1..]) == multiset(b[1..])
  {
    assert a == [a[0]] + a[1..] && b == [b[0]] + b[1..];
    assert multiset(a) == multiset{a[0]} + multiset(a[1..]);
    assert multiset(b) == multiset{b[0]} + multiset(b[1..]);
    forall y ensures multiset(a[1..])[y] == multiset(b[1..])[y] {
      assert multiset(a)[y] == multiset{a[0]}[y] + multiset(a[1..])[y];
      assert multiset(b)[y] == multiset{b[0]}[y] + multiset(b[1..])[y];
    }
  }

  /** Two ascending sequences holding the same values are equal. */
  lemma {:induction false} AscendingUnique(a: seq<real>, b: seq<real>)
    requires Ascending(a) && Ascending(b) && multiset(a) == multiset(b)
    ensures a == b
    decreases |a|
  {
    assert |a| == |multiset(a)| == |multiset(b)| == |b|;
    if a != [] {
      assert b[0] in multiset(b) && a[0] in multiset(a);
      AscendingHeadLeast(a, b[0]);
      AscendingHeadLeast(b, a[0]);
      SameHeadTails(a, b);
      AscendingTail(a);
      AscendingTail(b);
      AscendingUnique(a[1..], b[1..]);
      assert a == [a[0]] + a[1..] && b == [b[0]] + b[1..];
    }
  }

  /**
   * An ordering sorted by key, and an ascending sequence holding the same keys,
   * agree position by position.
   */
  lemma SortedKeysAligned<T>(ord: seq<T>, vals: seq<real>, key: T -> real)
    requires SortedBy(ord, key)
    requires Ascending(vals) && multiset(vals) == multiset(Along(ord, key))
    ensures vals == Along(ord, key)
  {
    AscendingUnique(vals, Along(ord, key));
  }
}
