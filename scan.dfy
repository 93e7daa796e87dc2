/** The choice of the class a word moves to: the classes are offered in
    order, the word's own class is skipped, and the best candidate so far
    is replaced only by a strictly larger value. Stated once over an
    arbitrary value function, so that the properties of the choice do not
    depend on how the values are computed. */
module CandidateScan {

  /** The (best, best value) pair after offering the classes of `classes`
      in order to a scan that started at (best, bestValue). */
  function Scan<K(==)>(classes: seq<K>, cur: K, value: K -> real, best: K, bestValue: real): (r: (K, real))
    decreases |classes|
  {
    if classes == [] then (best, bestValue)
    else
      var prev := Scan(classes[..|classes| - 1], cur, value, best, bestValue);
      Offer(prev, classes[|classes| - 1], cur, value)
  }

  /** One offer: a class other than `cur` whose value beats the best so far
      takes its place. */
  function Offer<K(==)>(prev: (K, real), c: K, cur: K, value: K -> real): (K, real) {
    if c != cur && value(c) > prev.1 then (c, value(c)) else prev
  }

  /** Offering one more class extends the scan of the prefix. */
  lemma ScanStep<K>(classes: seq<K>, i: nat, cur: K, value: K -> real, best: K, bestValue: real)
    requires i < |classes|
    ensures Scan(classes[..i + 1], cur, value, best, bestValue)
            == Offer(Scan(classes[..i], cur, value, best, bestValue), classes[i], cur, value)
  {
    assert classes[..i + 1][..i] == classes[..i];
  }

  /** The best value never falls below the starting value, and it is
      reached by a class that was offered whenever the best class changed. */
  lemma {:induction false} ScanImproves<K>(classes: seq<K>, cur: K, value: K -> real, bestValue: real)
    ensures var r := Scan(classes, cur, value, cur, bestValue);
            && r.1 >= bestValue
            && (r.0 == cur ==> r.1 == bestValue)
            && (r.0 != cur ==> r.1 > bestValue && r.1 == value(r.0) && r.0 in classes)
    decreases |classes|
  {
    if classes != [] {
      var pre := classes[..|classes| - 1];
      ScanImproves(pre, cur, value, bestValue);
      var prev := Scan(pre, cur, value, cur, bestValue);
      assert prev.0 != cur ==> prev.0 in classes by {
        if prev.0 != cur {
          var k :| 0 <= k < |pre| && pre[k] == prev.0;
          assert classes[k] == prev.0;
        }
      }
    }
  }

  /** No class other than `cur` that was offered has a larger value than
      the best one. */
  lemma {:induction false} ScanIsMaximal<K>(classes: seq<K>, cur: K, value: K -> real, best: K, bestValue: real)
    ensures forall j :: 0 <= j < |classes| && classes[j] != cur ==>
              value(classes[j]) <= Scan(classes, cur, value, best, bestValue).1
    decreases |classes|
  {
    if classes != [] {
      var n := |classes| - 1;
      var pre := classes[..n];
      ScanIsMaximal(pre, cur, value, best, bestValue);
      forall j | 0 <= j < |classes| && classes[j] != cur
        ensures value(classes[j]) <= Scan(classes, cur, value, best, bestValue).1
      {
        if j < n {
          assert classes[j] == pre[j];
        }
      }
    }
  }

  /** Ties keep the earlier class: every class offered before the position
      of the winner has a strictly smaller value. */
  lemma {:induction false} ScanIsEarliest<K>(classes: seq<K>, cur: K, value: K -> real, bestValue: real)
    ensures var r := Scan(classes, cur, value, cur, bestValue);
            r.0 != cur ==>
              exists k :: 0 <= k < |classes| && classes[k] == r.0 &&
                forall j :: 0 <= j < k && classes[j] != cur ==> value(classes[j]) < r.1
    decreases |classes|
  {
    if classes != [] {
      var n := |classes| - 1;
      var pre := classes[..n];
      var prev := Scan(pre, cur, value, cur, bestValue);
      var r := Scan(classes, cur, value, cur, bestValue);
      if r.0 != cur {
        if r == prev {
          ScanIsEarliest(pre, cur, value, bestValue);
          var k :| 0 <= k < |pre| && pre[k] == r.0 &&
                   forall j :: 0 <= j < k && pre[j] != cur ==> value(pre[j]) < r.1;
          assert classes[k] == r.0;
          forall j | 0 <= j < k && classes[j] != cur
            ensures value(classes[j]) < r.1
          {
            assert classes[j] == pre[j];
          }
        } else {
          ScanIsMaximal(pre, cur, value, cur, bestValue);
          ScanImproves(pre, cur, value, bestValue);
          forall j | 0 <= j < n && classes[j] != cur
            ensures value(classes[j]) < r.1
          {
            assert classes[j] == pre[j];
          }
        }
      }
    }
  }

  /** The value of `cur` is never consulted: two value functions that agree
      on every other class give the same scan. */
  lemma {:induction false} ScanAgree<K>(classes: seq<K>, cur: K, v1: K -> real, v2: K -> real, best: K, bestValue: real)
    requires forall c :: c != cur ==> v1(c) == v2(c)
    ensures Scan(classes, cur, v1, best, bestValue) == Scan(classes, cur, v2, best, bestValue)
    decreases |classes|
  {
    if classes != [] {
      ScanAgree(classes[..|classes| - 1], cur, v1, v2, best, bestValue);
    }
  }
}
