/** The first element of a finite set under a strict total order. */
module Extremes {

  ghost predicate Orders<T(!new)>(s: set<T>, before: (T, T) -> bool) {
    && (forall x, y {:trigger before(x, y)} :: x in s && y in s && x != y ==> before(x, y) || before(y, x))
    && (forall x, y, z {:trigger before(x, y), before(y, z)} ::
          x in s && y in s && z in s && before(x, y) && before(y, z) ==> before(x, z))
  }

  lemma {:induction false} FirstOf<T(!new)>(s: set<T>, before: (T, T) -> bool) returns (first: T)
    requires s != {} && Orders(s, before)
    ensures first in s && forall x :: x in s && x != first ==> before(first, x)
  {
    var y :| y in s;
    var rest := s - {y};
    if rest == {} {
      first := y;
      assert forall x :: x in s && x != y ==> x in rest;
    } else {
      var m := FirstOf(rest, before);
      assert before(m, y) || before(y, m);
      first := if before(m, y) then m else y;
      forall x | x in s && x != first ensures before(first, x) {
        if x != y && x != m {
          assert x in rest && before(m, x);
        }
      }
    }
  }
}
