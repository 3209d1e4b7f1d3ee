/** Counting the threads that are in a certain place. */
module Counting {

  function Count<P>(s: seq<P>, f: P -> bool): nat {
    if s == [] then 0 else Count(s[..|s| - 1], f) + (if f(s[|s| - 1]) then 1 else 0)
  }

  function One(b: bool): nat {
    if b then 1 else 0
  }

  /** Moving one thread changes the count by that thread alone. */
  lemma {:induction false} CountMove<P>(s: seq<P>, i: nat, x: P, f: P -> bool)
    requires i < |s|
    ensures Count(s[i := x], f) + One(f(s[i])) == Count(s, f) + One(f(x))
  {
    var last := |s| - 1;
    if i == last {
      assert s[i := x][..last] == s[..last];
    } else {
      assert s[i := x][..last] == s[..last][i := x];
      CountMove(s[..last], i, x, f);
    }
  }

  lemma {:induction false} CountSome<P>(s: seq<P>, f: P -> bool)
    requires Count(s, f) > 0
    ensures exists i :: 0 <= i < |s| && f(s[i])
  {
    var last := |s| - 1;
    if !f(s[last]) {
      CountSome(s[..last], f);
      var i :| 0 <= i < |s[..last]| && f(s[..last][i]);
      assert f(s[i]);
    }
  }

  lemma {:induction false} CountNone<P>(s: seq<P>, f: P -> bool)
    requires forall i :: 0 <= i < |s| ==> !f(s[i])
    ensures Count(s, f) == 0
  {
    if s != [] {
      CountNone(s[..|s| - 1], f);
    }
  }
}
