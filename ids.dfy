/** Sets of cell ids: their least and greatest elements, which the widget
    takes with `min(...)` and `max(...)`. */
module Ids {

  datatype Option<+T> = None | Some(value: T)

  predicate IsLeast(m: int, s: set<int>) {
    m in s && forall y :: y in s ==> m <= y
  }

  predicate IsGreatest(m: int, s: set<int>) {
    m in s && forall y :: y in s ==> y <= m
  }

  /** Some element of a non-empty set. */
  lemma Pick(s: set<int>) returns (x: int)
    requires s != {}
    ensures x in s
  {
    assert (forall y :: y !in s) ==> s == {};
    x :| x in s;
  }

  lemma {:induction false} LeastExists(s: set<int>)
    requires s != {}
    ensures exists m :: IsLeast(m, s)
  {
    var x := Pick(s);
    if s == {x} {
      assert IsLeast(x, s);
    } else {
      var rest := s - {x};
      LeastExists(rest);
      var r :| IsLeast(r, rest);
      var m := if x < r then x else r;
      forall y | y in s ensures m <= y {
        if y != x { assert y in rest; }
      }
      assert IsLeast(m, s);
    }
  }

  lemma {:induction false} GreatestExists(s: set<int>)
    requires s != {}
    ensures exists m :: IsGreatest(m, s)
  {
    var x := Pick(s);
    if s == {x} {
      assert IsGreatest(x, s);
    } else {
      var rest := s - {x};
      GreatestExists(rest);
      var r :| IsGreatest(r, rest);
      var m := if x < r then r else x;
      forall y | y in s ensures y <= m {
        if y != x { assert y in rest; }
      }
      assert IsGreatest(m, s);
    }
  }

  /** Python's min(s) on a non-empty set. */
  function Min(s: set<int>): (m: int)
    requires s != {}
    ensures IsLeast(m, s)
  {
    LeastExists(s);
    var m :| m in s && IsLeast(m, s); m
  }

  /** Python's max(s) on a non-empty set. */
  function Max(s: set<int>): (m: int)
    requires s != {}
    ensures IsGreatest(m, s)
  {
    GreatestExists(s);
    var m :| m in s && IsGreatest(m, s); m
  }
}
