/**
 * The one operation over a sparse array itself: listing its values. A sparse
 * array is modelled as a finite map from int keys; it hands out its values by
 * position, and positions follow the keys in increasing order.
 */
module SparseArrays {
  import opened Wrappers

  /** A least element of a nonempty set of keys exists. */
  lemma {:induction false} LeastExists(keys: set<int>)
    requires keys != {}
    ensures exists m :: m in keys && forall k :: k in keys ==> m <= k
    decreases |keys|
  {
    // spell out that a nonempty set has an element, so the pick below can find one
    if forall y :: y !in keys {
      assert false;
    }
    var x :| x in keys;
    if keys != {x} {
      var rest := keys - {x};
      LeastExists(rest);
      var m :| m in rest && forall k :: k in rest ==> m <= k;
      var least := if x < m then x else m;
      forall k | k in keys ensures least <= k {
        if k != x {
          assert k in rest;
        }
      }
      assert least in keys;
    } else {
      assert forall k :: k in keys ==> x <= k;
    }
  }

  /** The least key of a nonempty set. */
  function Least(keys: set<int>): (m: int)
    requires keys != {}
    ensures m in keys && forall k :: k in keys ==> m <= k
  {
    LeastExists(keys);
    var m :| m in keys && forall k :: k in keys ==> m <= k;
    m
  }

  /** The keys in the order a sparse array keeps them: each key once, increasing. */
  function SortedKeys(keys: set<int>): (r: seq<int>)
    ensures |r| == |keys|
    ensures forall k :: k in keys <==> k in r
    ensures forall i, j :: 0 <= i < j < |r| ==> r[i] < r[j]
    decreases |keys|
  {
    if keys == {} then []
    else
      var m := Least(keys);
      [m] + SortedKeys(keys - {m})
  }

  /**
   * `asList`: null for a null sparse array; otherwise a list with one value per
   * key, the value at position `i` being the one stored under the `i`-th key.
   */
  method AsList<C>(sparseArray: Option<map<int, C>>) returns (list: Option<seq<C>>)
    ensures list.None? <==> sparseArray.None?
    ensures sparseArray.Some? ==> |list.value| == |sparseArray.value|
    ensures sparseArray.Some? ==> forall i :: 0 <= i < |list.value| ==>
      list.value[i] == sparseArray.value[SortedKeys(sparseArray.value.Keys)[i]]
  {
    if sparseArray.None? {
      return None;
    }
    var m := sparseArray.value;
    var keys := SortedKeys(m.Keys);
    var arrayList: seq<C> := [];
    for i := 0 to |keys|
      invariant |arrayList| == i
      invariant forall j :: 0 <= j < i ==> arrayList[j] == m[keys[j]]
    {
      arrayList := arrayList + [m[keys[i]]];
    }
    assert |m.Keys| == |m|;
    return Some(arrayList);
  }

  /** Every value of the map shows up in the list, at the position of its key. */
  lemma {:induction false} AsListCovers<C>(m: map<int, C>, list: seq<C>, k: int)
    requires |list| == |m|
    requires forall i :: 0 <= i < |list| ==> list[i] == m[SortedKeys(m.Keys)[i]]
    requires k in m
    ensures exists i :: 0 <= i < |list| && SortedKeys(m.Keys)[i] == k && list[i] == m[k]
  {
    var keys := SortedKeys(m.Keys);
    assert k in keys;
    var i :| 0 <= i < |keys| && keys[i] == k;
    assert |m.Keys| == |m|;
    assert list[i] == m[k];
  }
}
