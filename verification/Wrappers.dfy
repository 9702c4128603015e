// Small things used everywhere: the daemon's (value, error) results, and the
// arbitrary orders in which maps and query results are gone through.
module Wrappers {
  datatype Option<+T> = None | Some(value: T)

  datatype Result<+T, +E> = Ok(value: T) | Err(error: E)

  lemma Element<T>(s: set<T>) returns (x: T)
    requires s != {}
    ensures x in s
  {
    x :| x in s;
  }

  // `order` has the elements of `s`, each once.
  ghost predicate Lists<T(!new)>(order: seq<T>, s: set<T>) {
    && (forall i, j :: 0 <= i < j < |order| ==> order[i] != order[j])
    && (forall x :: x in order <==> x in s)
  }

  lemma ListsOneMore<T(!new)>(order: seq<T>, s: set<T>, x: T, t: set<T>)
    requires Lists(order, s)
    requires x !in s && t == s + {x}
    ensures Lists(order + [x], t)
  {
  }

  lemma {:induction false} SomeOrder<T(!new)>(s: set<T>) returns (order: seq<T>)
    ensures Lists(order, s)
    decreases s
  {
    if s == {} {
      order := [];
    } else {
      var x := Element(s);
      var rest := SomeOrder(s - {x});
      order := rest + [x];
      assert forall y :: y in order <==> y in rest || y == x;
    }
  }

  lemma OrderEnding<T(!new)>(s: set<T>, x: T) returns (order: seq<T>)
    requires x in s
    ensures Lists(order, s) && order != [] && order[|order| - 1] == x
  {
    var rest := SomeOrder(s - {x});
    order := rest + [x];
    assert forall y :: y in order <==> y in rest || y == x;
  }
}
