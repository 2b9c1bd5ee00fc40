/** Exchanging a part of a set, and addresses outside a set. */
module Sets {

  lemma SwapSame<T>(s: set<T>, part: set<T>)
    requires part <= s
    ensures s - part + part == s
  {
  }

  lemma SwapGrown<T>(s: set<T>, part: set<T>, more: set<T>)
    requires part <= s
    ensures s - part + (part + more) == s + more
  {
  }

  lemma SwapShrunk<T>(s: set<T>, part: set<T>, less: set<T>)
    requires part <= s && less <= part
    ensures s - part + (part - less) == s - less
  {
  }

  lemma SwapGone<T>(s: set<T>, part: set<T>)
    ensures s - part + {} == s - part
  {
  }

  /** A finite set of addresses has an upper bound. */
  lemma {:induction false} Bound(used: set<nat>) returns (top: nat)
    ensures forall x :: x in used ==> x <= top
  {
    if used == {} {
      top := 0;
    } else {
      var x :| x in used;
      var rest := Bound(used - {x});
      top := if x > rest then x else rest;
      assert forall y :: y in used ==> y == x || y in used - {x};
    }
  }

  /** There is always an address nobody uses. */
  lemma {:induction false} FreshAddress(used: set<nat>)
    ensures exists b: nat :: b != 0 && b !in used
  {
    var top := Bound(used);
    assert top + 1 !in used;
  }
}
