/**
 * The pieces of SQL semantics the queries rely on: PostgreSQL array
 * containment (`@>` and `<@`) and a deterministic choice among the rows a
 * query leaves unordered.
 */
module Sql {

  /** The distinct elements of an SQL array. */
  function Elems(a: seq<string>): (s: set<string>)
    ensures forall x :: x in s <==> x in a
  {
    set x | x in a
  }

  /** `a @> b` (and so `b <@ a`): every element of `b` occurs in `a`, whatever the order or repetition. */
  predicate ArrayContains(a: seq<string>, b: seq<string>)
  {
    forall x :: x in b ==> x in a
  }

  /** Containment both ways is equality of the element sets: order and repetition do not matter. */
  lemma ContainsBothWaysIsSetEquality(a: seq<string>, b: seq<string>)
    ensures ArrayContains(a, b) && ArrayContains(b, a) <==> Elems(a) == Elems(b)
  {
  }

  /** Every non-empty finite set of ids has a least element. */
  lemma {:induction false} LeastExists(ids: set<int>)
    requires ids != {}
    ensures exists m :: m in ids && forall j :: j in ids ==> m <= j
  {
    if forall z :: z !in ids {
      assert false;
    }
    var x :| x in ids;
    if ids == {x} {
      assert forall j :: j in ids ==> x <= j;
    } else {
      var rest := ids - {x};
      LeastExists(rest);
      var m :| m in rest && forall j :: j in rest ==> m <= j;
      var least := if x < m then x else m;
      forall j | j in ids ensures least <= j {
        if j != x { assert j in rest; }
      }
      assert least in ids;
    }
  }

  /** The least id of a non-empty set: the model's fixed choice where SQL returns rows in no particular order. */
  function LeastId(ids: set<int>): (m: int)
    requires ids != {}
    ensures m in ids && forall j :: j in ids ==> m <= j
  {
    LeastExists(ids);
    var m :| m in ids && forall j :: j in ids ==> m <= j;
    m
  }
}
