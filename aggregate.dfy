/** `Sum` and `OrderByDescending(...).FirstOrDefault()` over the rows of a
    table, as the reports use them. */
module Aggregate {
  import opened Results

  /** The sum of `f` over a finite set of rows; the order of summation does
      not matter (see SumOverRemove). */
  ghost function SumOver<K>(ids: set<K>, f: K -> int): int
    decreases |ids|
  {
    if ids == {} then 0
    else
      var k :| k in ids;
      f(k) + SumOver(ids - {k}, f)
  }

  /** Any row can be taken out of the sum first. */
  lemma {:induction false} SumOverRemove<K>(ids: set<K>, f: K -> int, x: K)
    requires x in ids
    ensures SumOver(ids, f) == f(x) + SumOver(ids - {x}, f)
    decreases |ids|
  {
    var k :| k in ids && SumOver(ids, f) == f(k) + SumOver(ids - {k}, f);
    if k != x {
      SumOverRemove(ids - {k}, f, x);
      SumOverRemove(ids - {x}, f, k);
      assert ids - {k} - {x} == ids - {x} - {k};
    }
  }

  /** Adding a row adds its value. */
  lemma SumOverAdd<K>(ids: set<K>, f: K -> int, x: K)
    requires x !in ids
    ensures SumOver(ids + {x}, f) == f(x) + SumOver(ids, f)
  {
    SumOverRemove(ids + {x}, f, x);
    assert ids + {x} - {x} == ids;
  }

  /** Two functions that agree on the rows have the same sum. */
  lemma {:induction false} SumOverCongruent<K>(ids: set<K>, f: K -> int, g: K -> int)
    requires forall k :: k in ids ==> f(k) == g(k)
    ensures SumOver(ids, f) == SumOver(ids, g)
    decreases |ids|
  {
    if ids != {} {
      var k :| k in ids && SumOver(ids, f) == f(k) + SumOver(ids - {k}, f);
      SumOverRemove(ids, g, k);
      SumOverCongruent(ids - {k}, f, g);
    }
  }

  predicate IsMaximum<K>(m: K, ids: set<K>, f: K -> int) {
    m in ids && forall k :: k in ids ==> f(k) <= f(m)
  }

  /** Every non-empty finite set has a row with a largest value. */
  lemma {:induction false} MaximumExists<K>(ids: set<K>, f: K -> int)
    requires ids != {}
    ensures exists m :: IsMaximum(m, ids, f)
    decreases |ids|
  {
    var x :| x in ids;
    if ids == {x} {
      assert IsMaximum(x, ids, f);
    } else {
      MaximumExists(ids - {x}, f);
      var m :| IsMaximum(m, ids - {x}, f);
      if f(x) >= f(m) {
        assert IsMaximum(x, ids, f);
      } else {
        assert IsMaximum(m, ids, f);
      }
    }
  }

  /** A row with the largest value, if there are rows; which of several tied
      rows comes first is left open, as with the unordered query. */
  ghost function ArgMax<K>(ids: set<K>, f: K -> int): (r: Option<K>)
    ensures r.None? <==> ids == {}
    ensures r.Some? ==> IsMaximum(r.value, ids, f)
  {
    if ids == {} then None
    else
      MaximumExists(ids, f);
      var m :| IsMaximum(m, ids, f);
      Some(m)
  }
}
