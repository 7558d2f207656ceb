/** Sets of numbers: equality, and the smallest element. */
module Minimum {
  ghost predicate IsMin(s: set<int>, x: int) {
    x in s && forall y :: y in s ==> x <= y
  }

  lemma Element<T>(s: set<T>) returns (y: T)
    requires s != {}
    ensures y in s
  {
    y :| y in s;
  }

  /** Sets with the same elements are equal. */
  lemma SameSet(a: set<int>, b: set<int>)
    requires forall x :: x in a <==> x in b
    ensures a == b
  {
    if a - b != {} {
      var y := Element(a - b);
    }
    if b - a != {} {
      var y := Element(b - a);
    }
  }

  lemma {:induction false} MinExists(s: set<int>)
    requires s != {}
    ensures exists x :: IsMin(s, x)
    decreases |s|
  {
    var y := Element(s);
    var rest := s - {y};
    assert s == rest + {y};
    if rest == {} {
      assert IsMin(s, y);
    } else {
      MinExists(rest);
      var z :| IsMin(rest, z);
      var x := if y < z then y else z;
      assert forall w :: w in s ==> w in rest || w == y;
      assert IsMin(s, x);
    }
  }

  ghost function Min(s: set<int>): (x: int)
    requires s != {}
    ensures IsMin(s, x)
  {
    MinExists(s);
    var x :| IsMin(s, x);
    x
  }
}
