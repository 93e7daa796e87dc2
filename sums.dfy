/** Finite sums of real-valued terms over the key set of a counter.
    The objective of the class model is a sum over the (class, history)
    entries and over the classes of two counters; the sum does not depend
    on the order in which a hash map happens to enumerate its keys, which
    is what SumRemove states. */
module Sums {

  /** The sum of g(x) over the elements x of the finite set s. */
  ghost function SumOver<K>(s: set<K>, g: K -> real): real
    decreases s
  {
    if s == {} then 0.0 else var x :| x in s; g(x) + SumOver(s - {x}, g)
  }

  /** Any element may be taken out first: the sum is independent of the
      enumeration order. */
  lemma {:induction false} SumRemove<K>(s: set<K>, g: K -> real, y: K)
    requires y in s
    ensures SumOver(s, g) == g(y) + SumOver(s - {y}, g)
    decreases s
  {
    var x :| x in s && SumOver(s, g) == g(x) + SumOver(s - {x}, g);
    if x != y {
      SumRemove(s - {x}, g, y);
      SumRemove(s - {y}, g, x);
      assert s - {x} - {y} == s - {y} - {x};
    }
  }

  /** Adding one new element adds its term (the step of a loop that
      accumulates a sum while enumerating a set). */
  lemma SumAdd<K>(s: set<K>, g: K -> real, y: K)
    requires y !in s
    ensures SumOver(s + {y}, g) == SumOver(s, g) + g(y)
  {
    SumRemove(s + {y}, g, y);
    assert s + {y} - {y} == s;
  }

  /** Two term functions that agree on s have the same sum over s. */
  lemma {:induction false} SumAgree<K>(s: set<K>, g1: K -> real, g2: K -> real)
    requires forall x :: x in s ==> g1(x) == g2(x)
    ensures SumOver(s, g1) == SumOver(s, g2)
    decreases s
  {
    if s != {} {
      var x :| x in s;
      SumRemove(s, g1, x);
      SumRemove(s, g2, x);
      SumAgree(s - {x}, g1, g2);
    }
  }

  /** Elements whose term is zero do not change the sum. */
  lemma {:induction false} SumExtend<K>(s: set<K>, t: set<K>, g: K -> real)
    requires s <= t
    requires forall x :: x in t && x !in s ==> g(x) == 0.0
    ensures SumOver(t, g) == SumOver(s, g)
    decreases t
  {
    if t != s {
      var x :| x in t && x !in s;
      SumRemove(t, g, x);
      SumExtend(s, t - {x}, g);
    }
  }

  /** Changing the term of one element x (and adding x if it was absent)
      changes the sum by exactly the difference of that term. */
  lemma SumPointChange<K>(s: set<K>, g1: K -> real, g2: K -> real, x: K)
    requires forall y :: y in s && y != x ==> g1(y) == g2(y)
    ensures SumOver(s + {x}, g2) == SumOver(s, g1) - (if x in s then g1(x) else 0.0) + g2(x)
  {
    SumRemove(s + {x}, g2, x);
    assert s + {x} - {x} == s - {x};
    SumAgree(s - {x}, g1, g2);
    if x in s {
      SumRemove(s, g1, x);
    } else {
      assert s - {x} == s;
    }
  }

  /** Taking one more element out of the part of `all` still to visit and
      adding it to the visited part keeps the two a partition of `all`. */
  lemma VisitStep<K>(rest: set<K>, done: set<K>, all: set<K>, x: K)
    requires rest !! done && rest + done == all && x in rest
    ensures x !in done
    ensures (rest - {x}) !! (done + {x}) && (rest - {x}) + (done + {x}) == all
  {
  }

  /** Nothing left to visit: every element of `all` has been visited. */
  lemma VisitDone<K>(rest: set<K>, done: set<K>, all: set<K>)
    requires rest + done == all && rest == {}
    ensures done == all
  {
  }

  /** A set that is not empty has an element to visit next. */
  lemma Element<K>(rest: set<K>) returns (x: K)
    requires rest != {}
    ensures x in rest
  {
    x :| x in rest;
  }
}
