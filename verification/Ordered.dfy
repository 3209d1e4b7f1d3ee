/** Keys in ascending order, as a std::map iterates over them. */
module Ordered {

  predicate IsLeast(k: int, keys: set<int>) {
    k in keys && forall j :: j in keys ==> k <= j
  }

  lemma Member<T>(s: set<T>) returns (x: T)
    requires s != {}
    ensures x in s
  {
    x :| x in s;
  }

  lemma {:induction false} HasLeast(keys: set<int>)
    requires keys != {}
    ensures exists k :: k in keys && IsLeast(k, keys)
  {
    var x := Member(keys);
    if keys == {x} {
      assert IsLeast(x, keys);
    } else {
      HasLeast(keys - {x});
      var k :| k in keys - {x} && IsLeast(k, keys - {x});
      var least := if k <= x then k else x;
      forall j | j in keys ensures least <= j {
        assert j == x || j in keys - {x};
      }
      assert IsLeast(least, keys);
    }
  }

  /** The keys 0 to n-1 are there. */
  predicate HasAll(keys: set<int>, n: nat) {
    forall k :: 0 <= k < n ==> k in keys
  }

  /** A set that contains 0 to n-1 has at least n members. */
  lemma {:induction false} HoldsMany(keys: set<int>, n: nat)
    requires HasAll(keys, n)
    ensures |keys| >= n
  {
    if n > 0 {
      HoldsMany(keys - {n - 1}, n - 1);
    }
  }

  /** If those are as many as it has, it has no others. */
  lemma NoOthers(keys: set<int>)
    requires HasAll(keys, |keys|)
    ensures forall k :: k in keys <==> 0 <= k < |keys|
  {
    forall x | x in keys ensures 0 <= x < |keys| {
      if !(0 <= x < |keys|) {
        HoldsMany(keys - {x}, |keys|);
      }
    }
  }
}
