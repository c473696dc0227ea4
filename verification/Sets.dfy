/** Facts about finite sets that the models share. */
module Sets {
  lemma AnyElement<T>(s: set<T>) returns (x: T)
    requires s != {}
    ensures x in s
  {
    x :| x in s;
  }

  lemma {:induction false} SubsetSize<T>(a: set<T>, b: set<T>)
    requires a <= b
    ensures |a| <= |b|
    ensures |a| == |b| ==> a == b
  {
    if a != {} {
      var x := AnyElement(a);
      SubsetSize(a - {x}, b - {x});
    }
  }

  lemma AddOneSize<T>(a: set<T>, x: T)
    ensures |a + {x}| == if x in a then |a| else |a| + 1
  {
    if x in a {
      assert a + {x} == a;
    }
  }

  lemma WithOneMore<T>(a: set<T>, x: T) returns (b: set<T>)
    ensures forall y :: y in b <==> y in a || y == x
    ensures |b| <= |a| + 1
  {
    b := a + {x};
    AddOneSize(a, x);
  }

  /** The numbers 0, ..., n - 1. */
  ghost function Below(n: nat): (s: set<int>)
    ensures |s| == n
    ensures forall x :: x in s <==> 0 <= x < n
  {
    if n == 0 then {} else Below(n - 1) + {n - 1}
  }

  /** The members of a list without repetition. */
  lemma {:induction false} DistinctMembers<T>(v: seq<T>) returns (s: set<T>)
    requires forall i, j | 0 <= i < j < |v| :: v[i] != v[j]
    ensures |s| == |v| && forall x :: x in s <==> x in v
  {
    if v == [] {
      s := {};
    } else {
      var m := |v| - 1;
      var rest, x := v[..m], v[m];
      var others := DistinctMembers(rest);
      assert v == rest + [x] && x !in rest;
      s := others + {x};
      AddOneSize(others, x);
    }
  }
}
