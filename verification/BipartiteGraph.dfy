/** Matchings and vertex covers of a finite bipartite graph, as plain values.

    The augmenting-path search in MaxBipartiteMatch never builds a cover; its
    proof carries one along, and these lemmas say what a cover is good for. */
module BipartiteGraph {
  import opened Sets

  // An edge goes from a left node (an element) to a right node (a matcher).
  type Edge = (int, int)

  ghost predicate IsMatching(edges: set<Edge>, p: set<Edge>) {
    && p <= edges
    && forall e, f | e in p && f in p && e != f :: e.0 != f.0 && e.1 != f.1
  }

  ghost predicate IsCover(edges: set<Edge>, cl: set<int>, cr: set<int>) {
    forall e | e in edges :: e.0 in cl || e.1 in cr
  }

  ghost predicate IsMaximum(edges: set<Edge>, p: set<Edge>) {
    && IsMatching(edges, p)
    && forall q | IsMatching(edges, q) :: |q| <= |p|
  }

  /** No matching is larger than a cover. */
  lemma {:induction false} WeakDuality(p: set<Edge>, cl: set<int>, cr: set<int>)
    requires IsMatching(p, p) && IsCover(p, cl, cr)
    ensures |p| <= |cl| + |cr|
    decreases |p|
  {
    if p != {} {
      var e :| e in p;
      if e.0 in cl {
        WeakDuality(p - {e}, cl - {e.0}, cr);
      } else {
        WeakDuality(p - {e}, cl, cr - {e.1});
      }
    }
  }

  /** A cover no larger than the matching holds exactly one end of every matched
      edge and nothing else. */
  lemma TightCover(p: set<Edge>, cl: set<int>, cr: set<int>)
    requires IsMatching(p, p) && IsCover(p, cl, cr) && |cl| + |cr| <= |p|
    ensures forall e | e in p :: e.0 in cl <==> e.1 !in cr
  {
    forall e | e in p
      ensures e.0 in cl <==> e.1 !in cr
    {
      if e.0 in cl && e.1 in cr {
        WeakDuality(p - {e}, cl - {e.0}, cr - {e.1});
      }
    }
  }

  /** In a tight cover, one matched right node can replace its mate at no cost. */
  lemma ReplaceMate(p: set<Edge>, cl: set<int>, cr: set<int>, e: Edge)
      returns (cl': set<int>, cr': set<int>)
    requires IsMatching(p, p) && IsCover(p, cl, cr) && |cl| + |cr| <= |p| && e in p
    ensures forall x :: x in cl' <==> x in cl && x != e.0
    ensures forall x :: x in cr' <==> x in cr || x == e.1
    ensures IsCover(p, cl', cr') && |cl'| + |cr'| <= |p|
  {
    TightCover(p, cl, cr);
    if e.0 in cl {
      cl', cr' := cl - {e.0}, cr + {e.1};
    } else {
      cl', cr' := cl, cr;
    }
  }

  /** ... and so can any set of matched right nodes. */
  lemma {:induction false} ReplaceMates(p: set<Edge>, cl: set<int>, cr: set<int>, s: set<int>)
      returns (cl': set<int>, cr': set<int>)
    requires IsMatching(p, p) && IsCover(p, cl, cr) && |cl| + |cr| <= |p|
    requires forall r | r in s :: exists e :: e in p && e.1 == r
    ensures forall x :: x in cl' <==> x in cl && forall e | e in p && e.0 == x :: e.1 !in s
    ensures forall x :: x in cr' <==> x in cr || x in s
    ensures |cl'| + |cr'| <= |p|
    decreases |s|
  {
    if s == {} {
      cl', cr' := cl, cr;
    } else {
      var r := AnyElement(s);
      var e :| e in p && e.1 == r;
      cl', cr' := ReplaceMate(p, cl, cr, e);
      cl', cr' := ReplaceMates(p, cl', cr', s - {r});
    }
  }

  /** Edges told apart by one of their ends are as many as those ends. */
  lemma {:induction false} EndsSize(p: set<Edge>, end: Edge -> int, s: set<int>)
    requires forall e, f | e in p && f in p && e != f :: end(e) != end(f)
    requires forall e | e in p :: end(e) in s
    requires forall x | x in s :: exists e :: e in p && end(e) == x
    ensures |p| == |s|
    decreases |p|
  {
    if p == {} {
      if s != {} {
        var x := AnyElement(s);
        assert false;
      }
    } else {
      var e :| e in p;
      forall x | x in s - {end(e)}
        ensures exists f :: f in p - {e} && end(f) == x
      {
        var f :| f in p && end(f) == x;
      }
      EndsSize(p - {e}, end, s - {end(e)});
    }
  }

  function LeftEnd(e: Edge): int { e.0 }

  function RightEnd(e: Edge): int { e.1 }

  /** Node `x` of the side picked by `end` has an edge in `p`. */
  ghost predicate Touches(p: set<Edge>, end: Edge -> int, x: int) {
    exists e :: e in p && end(e) == x
  }

  /** All of the first `n` nodes of that side have an edge in `p`. */
  ghost predicate Saturates(p: set<Edge>, end: Edge -> int, n: nat) {
    forall x | 0 <= x < n :: Touches(p, end, x)
  }

  /** Edges told apart by an end below `n` are at most `n`, and exactly `n` when
      every such end occurs. */
  lemma EndsBelow(p: set<Edge>, end: Edge -> int, n: nat)
    requires forall e, f | e in p && f in p && e != f :: end(e) != end(f)
    requires forall e | e in p :: 0 <= end(e) < n
    ensures |p| <= n
    ensures |p| == n <==> Saturates(p, end, n)
  {
    var ends := set e | e in p :: end(e);
    EndsSize(p, end, ends);
    SubsetSize(ends, Below(n));
    if |p| == n {
      forall x | 0 <= x < n
        ensures Touches(p, end, x)
      {
        assert x in ends;
      }
    }
    if Saturates(p, end, n) {
      forall x | x in Below(n)
        ensures x in ends
      {
        assert Touches(p, end, x);
      }
      SubsetSize(Below(n), ends);
    }
  }

  /** A matching between `nl` and `nr` nodes is no larger than either side, and
      saturates a side exactly when it has that side's size. */
  lemma SaturationIsSize(p: set<Edge>, nl: nat, nr: nat)
    requires IsMatching(p, p)
    requires forall e | e in p :: 0 <= e.0 < nl && 0 <= e.1 < nr
    ensures |p| <= nl && (Saturates(p, LeftEnd, nl) <==> |p| == nl)
    ensures |p| <= nr && (Saturates(p, RightEnd, nr) <==> |p| == nr)
  {
    EndsBelow(p, LeftEnd, nl);
    EndsBelow(p, RightEnd, nr);
  }
}
