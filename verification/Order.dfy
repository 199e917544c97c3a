/** Ordered listings of finite sets: how the ordered collections of the source are iterated. */
module Order {

  ghost predicate Injective<T>(s: set<T>, rank: T -> nat) {
    forall x, y :: x in s && y in s && rank(x) == rank(y) ==> x == y
  }

  lemma {:induction false} LeastExists<T>(s: set<T>, rank: T -> nat)
    requires s != {}
    ensures exists m :: m in s && forall x :: x in s ==> rank(m) <= rank(x)
  {
    var m :| m in s;
    if s != {m} {
      assert s - {m} == {} ==> s == {m};
      LeastExists(s - {m}, rank);
      var n :| n in s - {m} && forall x :: x in s - {m} ==> rank(n) <= rank(x);
      var least := if rank(n) < rank(m) then n else m;
      assert forall x :: x in s ==> x == m || x in s - {m};
      assert least in s && forall x :: x in s ==> rank(least) <= rank(x);
    }
  }

  function Least<T(==,!new)>(s: set<T>, rank: T -> nat): (m: T)
    requires s != {} && Injective(s, rank)
    ensures m in s && forall x :: x in s ==> rank(m) <= rank(x)
  {
    LeastExists(s, rank);
    var m :| m in s && forall x :: x in s ==> rank(m) <= rank(x);
    m
  }

  /** The elements of `s` once each, in ascending rank. */
  function Ascending<T(==,!new)>(s: set<T>, rank: T -> nat): (l: seq<T>)
    requires Injective(s, rank)
    ensures forall x :: x in l <==> x in s
    ensures forall i, j :: 0 <= i < j < |l| ==> rank(l[i]) < rank(l[j])
    decreases s
  {
    if s == {} then []
    else
      var m := Least(s, rank);
      var rest := Ascending(s - {m}, rank);
      assert forall x :: x in [m] + rest <==> x == m || x in rest;
      assert forall i :: 0 <= i < |rest| ==> rest[i] in rest;
      [m] + rest
  }
}
