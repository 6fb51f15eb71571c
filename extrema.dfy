/**
 * Choice, maximum and minimum over finite non-empty sets: the element an
 * iteration visits next, and Python's `max` and `min`.
 */
module Extrema {

  /** Some element of a non-empty set (which one is left open). */
  ghost function Pick<T>(s: set<T>): (y: T)
    requires s != {}
    ensures y in s
  {
    var y :| y in s; y
  }

  /** The element a loop over `s` visits next: any element of `s`. */
  method Choose<T>(s: set<T>) returns (y: T)
    requires s != {}
    ensures y in s
  {
    y :| y in s;
  }

  /** Moving `y` from `todo` to `done` keeps `done == all - todo` and grows `done` by one. */
  lemma Moved<T>(all: set<T>, todo: set<T>, done: set<T>, y: T)
    requires done == all - todo && todo <= all && y in todo
    ensures done + {y} == all - (todo - {y}) && todo - {y} <= all
    ensures |done + {y}| == |done| + 1
  {
  }

  /** A worklist loop that has emptied `todo` has done all of `all`. */
  lemma Exhausted<T>(all: set<T>, todo: set<T>, done: set<T>)
    requires done == all - todo && todo == {}
    ensures done == all
  {
  }

  ghost function {:induction false} MaxWitness(s: set<int>): (m: int)
    requires s != {}
    ensures m in s && forall x :: x in s ==> x <= m
    decreases |s|
  {
    var y := Pick(s);
    if s - {y} == {} then
      assert forall x :: x in s ==> x == y by {
        forall x | x in s ensures x == y { assert x !in s - {y}; }
      }
      y
    else
      var m := MaxWitness(s - {y});
      var top := if m < y then y else m;
      assert forall x :: x in s ==> x <= top by {
        forall x | x in s ensures x <= top { if x != y { assert x in s - {y}; } }
      }
      top
  }

  ghost function {:induction false} MinWitness(s: set<int>): (m: int)
    requires s != {}
    ensures m in s && forall x :: x in s ==> m <= x
    decreases |s|
  {
    var y := Pick(s);
    if s - {y} == {} then
      assert forall x :: x in s ==> x == y by {
        forall x | x in s ensures x == y { assert x !in s - {y}; }
      }
      y
    else
      var m := MinWitness(s - {y});
      var bottom := if y < m then y else m;
      assert forall x :: x in s ==> bottom <= x by {
        forall x | x in s ensures bottom <= x { if x != y { assert x in s - {y}; } }
      }
      bottom
  }

  /** `max(s)`: the element of `s` that no element exceeds. */
  function Max(s: set<int>): (m: int)
    requires s != {}
    ensures m in s && forall x :: x in s ==> x <= m
  {
    var w := MaxWitness(s);
    var m :| m in s && forall x :: x in s ==> x <= m; m
  }

  /** `min(s)`: the element of `s` that exceeds no element. */
  function Min(s: set<int>): (m: int)
    requires s != {}
    ensures m in s && forall x :: x in s ==> m <= x
  {
    var w := MinWitness(s);
    var m :| m in s && forall x :: x in s ==> m <= x; m
  }

  /** The largest of a non-empty finite set of reals. */
  ghost function {:induction false} MaxReal(s: set<real>): (m: real)
    requires s != {}
    ensures m in s && forall x :: x in s ==> x <= m
    decreases |s|
  {
    var y := Pick(s);
    if s - {y} == {} then
      assert forall x :: x in s ==> x == y by {
        forall x | x in s ensures x == y { assert x !in s - {y}; }
      }
      y
    else
      var m := MaxReal(s - {y});
      var top := if m < y then y else m;
      assert forall x :: x in s ==> x <= top by {
        forall x | x in s ensures x <= top { if x != y { assert x in s - {y}; } }
      }
      top
  }
}
