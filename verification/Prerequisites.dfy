/** The prerequisite relation between expectations, as a finite map from each to
    its immediate prerequisites, and what being a transitive one means. */
module Prerequisites {
  type Graph<T> = map<T, set<T>>

  /** Prerequisites of known expectations are known. */
  ghost predicate Closed<T>(g: Graph<T>) {
    forall x, y | x in g && y in g[x] :: y in g
  }

  /** What is exactly `n` steps of the relation away from `a`. */
  ghost function Steps<T>(g: Graph<T>, a: T, n: nat): set<T> {
    if n == 0 then {a}
    else set x, y | x in Steps(g, a, n - 1) && x in g && y in g[x] :: y
  }

  /** `b` is a transitive prerequisite of `a`. */
  ghost predicate Reaches<T>(g: Graph<T>, a: T, b: T) {
    exists n: nat :: n > 0 && b in Steps(g, a, n)
  }

  /** `r` contains the prerequisites of its members. */
  ghost predicate Downward<T>(g: Graph<T>, r: set<T>) {
    forall x | x in r && x in g :: g[x] <= r
  }

  /** A rank that falls along the relation: the graph has no cycle. */
  ghost predicate Ranked<T>(g: Graph<T>, rank: map<T, nat>) {
    && g.Keys <= rank.Keys
    && forall x, y | x in g && y in g[x] :: y in rank && rank[y] < rank[x]
  }

  lemma ReachesDirectly<T>(g: Graph<T>, a: T, b: T)
    requires a in g && b in g[a]
    ensures Reaches(g, a, b)
  {
    assert a in Steps(g, a, 0);
    assert b in Steps(g, a, 1);
  }

  lemma ReachesOn<T>(g: Graph<T>, a: T, b: T, c: T)
    requires Reaches(g, a, b) && b in g && c in g[b]
    ensures Reaches(g, a, c)
  {
    var n: nat :| n > 0 && b in Steps(g, a, n);
    assert c in Steps(g, a, n + 1);
  }

  lemma {:induction false} StepsFromFront<T>(g: Graph<T>, a: T, b: T, c: T, n: nat)
    requires a in g && b in g[a] && c in Steps(g, b, n)
    ensures c in Steps(g, a, n + 1)
  {
    if n == 0 {
      assert a in Steps(g, a, 0);
    } else {
      var x :| x in Steps(g, b, n - 1) && x in g && c in g[x];
      StepsFromFront(g, a, b, x, n - 1);
    }
  }

  lemma ReachesThrough<T>(g: Graph<T>, a: T, b: T, c: T)
    requires a in g && b in g[a] && Reaches(g, b, c)
    ensures Reaches(g, a, c)
  {
    var n: nat :| n > 0 && c in Steps(g, b, n);
    StepsFromFront(g, a, b, c, n);
  }

  lemma {:induction false} StepsHaveFront<T>(g: Graph<T>, a: T, c: T, n: nat) returns (b: T)
    requires n > 0 && c in Steps(g, a, n)
    ensures a in g && b in g[a] && c in Steps(g, b, n - 1)
  {
    var x :| x in Steps(g, a, n - 1) && x in g && c in g[x];
    if n == 1 {
      b := c;
    } else {
      b := StepsHaveFront(g, a, x, n - 1);
    }
  }

  /** A transitive prerequisite is an immediate one, or one of an immediate one's. */
  lemma ReachesByFront<T>(g: Graph<T>, a: T, c: T) returns (b: T)
    requires Reaches(g, a, c)
    ensures a in g && b in g[a] && (b == c || Reaches(g, b, c))
  {
    var n: nat :| n > 0 && c in Steps(g, a, n);
    b := StepsHaveFront(g, a, c, n);
    if n == 1 {
      assert Steps(g, b, 0) == {b};
    }
  }

  lemma {:induction false} StepsStayIn<T>(g: Graph<T>, a: T, n: nat, r: set<T>)
    requires n > 0 && Downward(g, r) && (a in g ==> g[a] <= r)
    ensures Steps(g, a, n) <= r
  {
    if n == 1 {
      assert Steps(g, a, 0) == {a};
    } else {
      StepsStayIn(g, a, n - 1, r);
    }
  }

  /** A downward-closed set with the immediate prerequisites has all of them. */
  lemma ReachesStaysIn<T>(g: Graph<T>, a: T, b: T, r: set<T>)
    requires Reaches(g, a, b) && Downward(g, r) && (a in g ==> g[a] <= r)
    ensures b in r
  {
    var n: nat :| n > 0 && b in Steps(g, a, n);
    StepsStayIn(g, a, n, r);
  }

  lemma ReachesIsKnown<T>(g: Graph<T>, a: T, b: T)
    requires Closed(g) && Reaches(g, a, b)
    ensures b in g
  {
    ReachesStaysIn(g, a, b, g.Keys);
  }

  lemma {:induction false} StepsLowerRank<T>(g: Graph<T>, rank: map<T, nat>, a: T, b: T, n: nat)
    requires Ranked(g, rank) && a in rank && b in Steps(g, a, n)
    ensures b in rank && (n > 0 ==> rank[b] < rank[a])
  {
    if n > 0 {
      var x :| x in Steps(g, a, n - 1) && x in g && b in g[x];
      StepsLowerRank(g, rank, a, x, n - 1);
    }
  }

  /** In a ranked graph nothing is its own prerequisite. */
  lemma ReachesLowersRank<T>(g: Graph<T>, rank: map<T, nat>, a: T, b: T)
    requires Ranked(g, rank) && a in rank && Reaches(g, a, b)
    ensures b in rank && rank[b] < rank[a] && a != b
  {
    var n: nat :| n > 0 && b in Steps(g, a, n);
    StepsLowerRank(g, rank, a, b, n);
  }

  lemma {:induction false} StepsInExtension<T>(g: Graph<T>, g': Graph<T>, a: T, n: nat)
    requires Closed(g) && a in g
    requires forall x | x in g :: x in g' && g'[x] == g[x]
    ensures Steps(g', a, n) == Steps(g, a, n) && Steps(g, a, n) <= g.Keys
  {
    if n > 0 {
      StepsInExtension(g, g', a, n - 1);
    }
  }

  /** Adding expectations changes nothing for those that were there. */
  lemma ReachesInExtension<T>(g: Graph<T>, g': Graph<T>, a: T, b: T)
    requires Closed(g) && a in g
    requires forall x | x in g :: x in g' && g'[x] == g[x]
    ensures Reaches(g', a, b) <==> Reaches(g, a, b)
  {
    forall n: nat
      ensures b in Steps(g', a, n) <==> b in Steps(g, a, n)
    {
      StepsInExtension(g, g', a, n);
    }
  }
}
