/** Re-keying of rows.

    Several steps of the persistence layer rename the keys of a row along a
    list of `(from, to)` pairs: property keys to column names and back,
    aliases to column names, qualified column references to aliases. They all
    share this one definition and its two lemmas.
 */
module Mapping {
  import opened Values

  /** Walks `pairs` in order and, for each `(from, to)` whose `from` is a key
      of `m`, writes `m[from]` under `to`. A later pair overwrites an earlier
      pair with the same target; a pair whose source is absent writes nothing. */
  function Remap(pairs: seq<(string, string)>, m: Row): Row
    decreases |pairs|
  {
    if |pairs| == 0 then map[]
    else
      var init := Remap(pairs[..|pairs| - 1], m);
      var last := pairs[|pairs| - 1];
      if last.0 in m then init[last.1 := m[last.0]] else init
  }

  /** No two pairs write to the same target key. */
  predicate DistinctTargets(pairs: seq<(string, string)>)
  {
    forall i, j :: 0 <= i < j < |pairs| ==> pairs[i].1 != pairs[j].1
  }

  /** A key is written exactly when some pair targets it and that pair's source is present. */
  lemma {:induction false} RemapKeys(pairs: seq<(string, string)>, m: Row, k: string)
    ensures k in Remap(pairs, m) <==> exists i :: 0 <= i < |pairs| && pairs[i].1 == k && pairs[i].0 in m
    decreases |pairs|
  {
    if |pairs| > 0 {
      var n := |pairs| - 1;
      var init := pairs[..n];
      RemapKeys(init, m, k);
      if k in Remap(init, m) {
        var i :| 0 <= i < |init| && init[i].1 == k && init[i].0 in m;
        assert pairs[i] == init[i];
      }
      if exists i :: 0 <= i < |pairs| && pairs[i].1 == k && pairs[i].0 in m {
        var i :| 0 <= i < |pairs| && pairs[i].1 == k && pairs[i].0 in m;
        if i < n {
          assert init[i] == pairs[i];
        }
      }
    }
  }

  /** With distinct targets, every pair whose source is present carries its value across unchanged. */
  lemma {:induction false} RemapAt(pairs: seq<(string, string)>, m: Row, i: int)
    requires DistinctTargets(pairs)
    requires 0 <= i < |pairs| && pairs[i].0 in m
    ensures pairs[i].1 in Remap(pairs, m)
    ensures Remap(pairs, m)[pairs[i].1] == m[pairs[i].0]
    decreases |pairs|
  {
    var n := |pairs| - 1;
    if i < n {
      var init := pairs[..n];
      assert init[i] == pairs[i];
      assert DistinctTargets(init) by {
        forall a, b | 0 <= a < b < |init| ensures init[a].1 != init[b].1 {
          assert init[a] == pairs[a] && init[b] == pairs[b];
        }
      }
      RemapAt(init, m, i);
      assert pairs[n].1 != pairs[i].1;
    }
  }
}
