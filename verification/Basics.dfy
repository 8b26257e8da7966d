/** What every other module uses. */
module Basics {
  datatype Option<T> = None | Some(value: T)

  /** The two halves of an exchange. */
  datatype Side = RequestSide | ResponseSide

  function Min(a: nat, b: nat): nat { if a <= b then a else b }

  /** Subtraction that stops at zero. */
  function Minus(a: nat, b: nat): nat { if a >= b then a - b else 0 }

  lemma Assoc<T>(a: seq<T>, b: seq<T>, c: seq<T>)
    ensures a + (b + c) == (a + b) + c && a + [] == a
  {
  }

  lemma {:induction false} LeastExists(s: set<nat>)
    requires s != {}
    ensures exists q :: q in s && forall r :: r in s ==> q <= r
    decreases s
  {
    var q :| q in s;
    var rest := s - {q};
    if rest == {} {
      assert s == {q};
    } else {
      LeastExists(rest);
      var m :| m in rest && forall r :: r in rest ==> m <= r;
      var least := Min(q, m);
      assert forall r :: r in s ==> r == q || r in rest;
      assert least in s && forall r :: r in s ==> least <= r;
    }
  }

  method Least(s: set<nat>) returns (q: nat)
    requires s != {}
    ensures q in s && forall r :: r in s ==> q <= r
  {
    LeastExists(s);
    q :| q in s && forall r :: r in s ==> q <= r;
  }
}
