/** `OrderBy` on a text column: the rows of a table listed in ascending
    ordinal order of a key. Rows with equal keys may come in any order, as
    with the database. */
module Listing {
  import opened Text

  predicate IsMinimum<K>(m: K, ids: set<K>, key: K -> string) {
    m in ids && forall k :: k in ids ==> OrdinalLe(key(m), key(k))
  }

  /** Every non-empty finite set has an element with a smallest key. */
  lemma {:induction false} MinimumExists<K>(ids: set<K>, key: K -> string)
    requires ids != {}
    ensures exists m :: IsMinimum(m, ids, key)
    decreases |ids|
  {
    var x :| x in ids;
    OrdinalLeReflexive(key(x));
    if ids == {x} {
      assert IsMinimum(x, ids, key);
    } else {
      MinimumExists(ids - {x}, key);
      var m :| IsMinimum(m, ids - {x}, key);
      OrdinalLeTotal(key(x), key(m));
      if OrdinalLe(key(x), key(m)) {
        forall k | k in ids ensures OrdinalLe(key(x), key(k)) {
          if k != x { OrdinalLeTransitive(key(x), key(m), key(k)); }
        }
        assert IsMinimum(x, ids, key);
      } else {
        assert IsMinimum(m, ids, key);
      }
    }
  }

  /** The elements of `ids`, each exactly once, ascending by `key`. */
  ghost function SortByKey<K>(ids: set<K>, key: K -> string): (r: seq<K>)
    ensures |r| == |ids|
    ensures forall i :: 0 <= i < |r| ==> r[i] in ids
    ensures forall k :: k in ids ==> k in r
    ensures forall i, j :: 0 <= i < j < |r| ==> r[i] != r[j] && OrdinalLe(key(r[i]), key(r[j]))
    decreases |ids|
  {
    if ids == {} then []
    else
      MinimumExists(ids, key);
      var m :| IsMinimum(m, ids, key);
      [m] + SortByKey(ids - {m}, key)
  }
}
