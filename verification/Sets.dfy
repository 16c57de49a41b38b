/** Walking through finite sets, as the servers walk through ordered maps and sets. */
module Sets {
  lemma EmptyOrNot<T>(s: set<T>)
    ensures s == {} || exists x :: x in s
  {
    if x :| x in s {
    } else {
      assert forall x :: x !in s;
    }
  }

  /** A set that is not empty has an element to go on with. */
  lemma Pick<T>(s: set<T>) returns (x: T)
    requires s != {}
    ensures x in s
  {
    EmptyOrNot(s);
    x :| x in s;
  }

  lemma {:induction false} HasLeast(s: set<int>, some: int)
    requires some in s
    ensures exists x :: x in s && forall y :: y in s ==> x <= y
    decreases |s|
  {
    var rest := s - {some};
    var least := some;
    if other :| other in rest {
      HasLeast(rest, other);
      var m :| m in rest && forall y :: y in rest ==> m <= y;
      least := if m < some then m else some;
    }
    forall y | y in s ensures least <= y {
      assert y == some || y in rest;
    }
  }

  /** The last of these positions. */
  ghost predicate Last(s: set<int>, k: int) {
    k in s && forall j :: j in s ==> j <= k
  }

  lemma LastNext(s: set<int>, i: int)
    requires forall j :: j in s ==> j < i
    ensures forall k :: Last(s + {i}, k) <==> k == i
  {
    assert Last(s + {i}, i);
  }
}
