/** Small facts about finite sets used by the solver's termination and ordering arguments. */
module Sets {

  lemma SubsetSize<T>(a: set<T>, b: set<T>)
    requires a <= b
    ensures |a| <= |b|
    ensures a < b ==> |a| < |b|
  {
    assert b == a + (b - a);
    assert |b| == |a| + |b - a|;
    if a < b {
      var u :| u in b - a;
    }
  }

  /** Every non-empty finite set has an element of least key. */
  lemma MinExists<T>(s: set<T>, key: map<T, int>)
    requires s != {} && s <= key.Keys
    ensures exists m :: m in s && forall u :: u in s ==> key[m] <= key[u]
    decreases s
  {
    var x :| x in s;
    if s - {x} != {} {
      MinExists(s - {x}, key);
      var m :| m in s - {x} && forall u :: u in s - {x} ==> key[m] <= key[u];
      if key[x] < key[m] {
        assert forall u :: u in s ==> key[x] <= key[u];
      } else {
        assert forall u :: u in s ==> key[m] <= key[u];
      }
    } else {
      assert s == {x};
    }
  }
}
