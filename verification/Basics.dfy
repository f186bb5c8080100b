/** Small pieces shared by several modules. */
module Basics {

  datatype Option<+T> = None | Some(value: T)

  /** A sequence extended by one element determines both parts. */
  lemma SnocEqual<T>(xs: seq<T>, x: T, ys: seq<T>, y: T)
    ensures xs + [x] == ys + [y] <==> xs == ys && x == y
  {
    if xs + [x] == ys + [y] {
      assert (xs + [x])[..|xs|] == xs && (xs + [x])[|xs|] == x;
      assert (ys + [y])[..|ys|] == ys && (ys + [y])[|ys|] == y;
    }
  }

  /** A new key adds one value and keeps the others. */
  lemma NewKey<K, V>(m: map<K, V>, k: K, v: V)
    requires k !in m
    ensures m[k := v].Values == m.Values + {v}
  {
    var n := m[k := v];
    assert k in n && n[k] == v;
    forall x | x in m.Values ensures x in n.Values {
      var j :| j in m && m[j] == x;
      assert j in n && n[j] == x;
    }
  }
}
