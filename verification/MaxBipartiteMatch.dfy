/** Maximum bipartite matching by augmenting paths over two mutually referent
    arrays, and the unordered-elements matcher decided by it. */
module MaxBipartiteMatch {
  import opened Sets
  import opened BipartiteGraph
  import opened MatchMatrices

  const UNUSED := -1

  ghost predicate EntriesBelow(a: seq<int>, n: int) {
    forall i | 0 <= i < |a| :: a[i] == UNUSED || 0 <= a[i] < n
  }

  /** left[l] and right[r] name each other or are unused. */
  ghost predicate MutuallyReferent(left: seq<int>, right: seq<int>) {
    && EntriesBelow(left, |right|)
    && EntriesBelow(right, |left|)
    && (forall l | 0 <= l < |left| && left[l] != UNUSED :: right[left[l]] == l)
    && (forall r | 0 <= r < |right| && right[r] != UNUSED :: left[right[r]] == r)
  }

  ghost predicate LinksAreEdges(edges: set<Edge>, left: seq<int>) {
    forall l | 0 <= l < |left| && left[l] != UNUSED :: (l, left[l]) in edges
  }

  ghost function Pairs(left: seq<int>): (p: set<Edge>) {
    set l | 0 <= l < |left| && left[l] != UNUSED :: (l, left[l])
  }

  ghost function Used(a: seq<int>): set<int> {
    set i | 0 <= i < |a| && a[i] != UNUSED
  }

  /** What a successful search from `ilhs` does. Everything is linked both ways
      again, except that the right node `ilhs` came from, if any, still points at
      `ilhs` until the caller relinks it. */
  ghost predicate Augmented(edges: set<Edge>, left0: seq<int>, right0: seq<int>, seen0: seq<bool>,
                            left: seq<int>, right: seq<int>, ilhs: int)
    requires |left0| == |left| && |right0| == |right| == |seen0| && 0 <= ilhs < |left|
    requires EntriesBelow(left0, |right0|)
  {
    && EntriesBelow(left, |right|) && EntriesBelow(right, |left|)
    && LinksAreEdges(edges, left)
    // The search takes a node it had not seen, and moves only links through such nodes.
    && left[ilhs] != UNUSED && !seen0[left[ilhs]]
    && (forall l | 0 <= l < |left| && l != ilhs && left[l] != left0[l] ::
          left0[l] != UNUSED && !seen0[left0[l]] && left[l] != UNUSED)
    && (forall r | 0 <= r < |right| && right[r] != right0[r] :: !seen0[r] && right[r] != UNUSED)
    // Links are mutual, up to the one stale link.
    && (forall l | 0 <= l < |left| && left[l] != UNUSED :: right[left[l]] == l)
    && (forall r | 0 <= r < |right| && right[r] != UNUSED && r != left0[ilhs] :: left[right[r]] == r)
  }

  /** What a fruitless search has established once it has tried `ilhs` against the
      first `tried` right nodes: the right nodes it saw are all matched, and every
      neighbour of their mates has been seen, as has every tried neighbour. */
  ghost predicate Explored(edges: set<Edge>, right: seq<int>, seen0: seq<bool>, seen: seq<bool>,
                           ilhs: int, tried: int)
    requires |right| == |seen0| == |seen|
  {
    && (forall r | 0 <= r < |right| && seen[r] && !seen0[r] :: right[r] != UNUSED)
    && (forall r | 0 <= r < |right| && r < tried && (ilhs, r) in edges :: seen[r])
    && (forall r, r' | 0 <= r < |right| && 0 <= r' < |right| && seen[r] && !seen0[r]
                       && (right[r], r') in edges :: seen[r'])
  }

  /** Why a search failed. */
  ghost predicate DeadEnd(edges: set<Edge>, right: seq<int>, seen0: seq<bool>, seen: seq<bool>, ilhs: int)
    requires |right| == |seen0| == |seen|
  {
    Explored(edges, right, seen0, seen, ilhs, |right|)
  }

  ghost predicate Grew(seen0: seq<bool>, seen: seq<bool>) {
    && |seen0| == |seen|
    && forall r | 0 <= r < |seen| && seen0[r] :: seen[r]
  }

  lemma GrewTwice(seen0: seq<bool>, seen1: seq<bool>, irhs: nat, seen2: seq<bool>)
    requires Grew(seen0, seen1) && irhs < |seen1|
    ensures Grew(seen0, seen0) && |seen0| == |seen1|
    ensures forall r | 0 <= r < |seen0| && seen0[r] :: seen1[r]
    ensures Grew(seen1[irhs := true], seen2) ==> Grew(seen0, seen2)
    ensures Grew(seen0, seen1[irhs := true])
  {
  }

  lemma Mate(left: seq<int>, right: seq<int>, irhs: nat)
    requires MutuallyReferent(left, right) && irhs < |right| && right[irhs] != UNUSED
    ensures 0 <= right[irhs] < |left| && left[right[irhs]] == irhs
  {
  }

  lemma ExploreFromStart(edges: set<Edge>, right: seq<int>, seen: seq<bool>, ilhs: int)
    requires |right| == |seen|
    ensures Explored(edges, right, seen, seen, ilhs, 0) && Grew(seen, seen)
  {
  }

  /** A node that is seen already, or no neighbour, needs no search. */
  lemma ExploreSkipping(edges: set<Edge>, right: seq<int>, seen0: seq<bool>, seen: seq<bool>, ilhs: int, irhs: nat)
    requires irhs < |right| == |seen0| == |seen|
    requires Explored(edges, right, seen0, seen, ilhs, irhs)
    requires seen[irhs] || (ilhs, irhs) !in edges
    ensures Explored(edges, right, seen0, seen, ilhs, irhs + 1)
  {
  }

  /** A dead end below `irhs` extends what the search from `ilhs` has explored. */
  lemma ExploreFurther(edges: set<Edge>, right: seq<int>, seen0: seq<bool>, seen1: seq<bool>, seen2: seq<bool>,
                       ilhs: int, irhs: nat)
    requires irhs < |right| == |seen0| && Grew(seen0, seen1) && !seen1[irhs]
    requires Explored(edges, right, seen0, seen1, ilhs, irhs)
    requires right[irhs] != UNUSED
    requires Grew(seen1[irhs := true], seen2)
    requires DeadEnd(edges, right, seen1[irhs := true], seen2, right[irhs])
    ensures Explored(edges, right, seen0, seen2, ilhs, irhs + 1)
  {
  }

  /** Taking an unused right node augments. */
  lemma LinkToSink(edges: set<Edge>, left: seq<int>, right: seq<int>, seen0: seq<bool>, ilhs: nat, irhs: nat)
    requires MutuallyReferent(left, right) && LinksAreEdges(edges, left)
    requires ilhs < |left| && irhs < |right| == |seen0| && (ilhs, irhs) in edges
    requires right[irhs] == UNUSED && !seen0[irhs]
    ensures Augmented(edges, left, right, seen0, left[ilhs := irhs], right[irhs := ilhs], ilhs)
  {
  }

  /** Taking over `irhs` after its old mate was augmented elsewhere augments. */
  lemma LinkThrough(edges: set<Edge>, left0: seq<int>, right0: seq<int>, seen0: seq<bool>, seen1: seq<bool>,
                    left: seq<int>, right: seq<int>, ilhs: nat, irhs: nat)
    requires MutuallyReferent(left0, right0)
    requires ilhs < |left0| == |left| && irhs < |right0| == |right| == |seen0|
    requires left0[ilhs] != UNUSED ==> seen0[left0[ilhs]]
    requires Grew(seen0, seen1) && !seen0[irhs] && seen1[irhs]
    requires (ilhs, irhs) in edges && right0[irhs] != UNUSED
    requires Augmented(edges, left0, right0, seen1, left, right, right0[irhs])
    ensures Augmented(edges, left0, right0, seen0, left[ilhs := irhs], right[irhs := ilhs], ilhs)
  {
  }

  ghost function Unseen(seen: array<bool>): set<int>
    reads seen
  {
    set r | 0 <= r < seen.Length && !seen[r]
  }

  lemma PairsAreMatching(edges: set<Edge>, left: seq<int>, right: seq<int>)
    requires MutuallyReferent(left, right) && LinksAreEdges(edges, left)
    ensures IsMatching(edges, Pairs(left)) && IsMatching(Pairs(left), Pairs(left))
  {
  }

  lemma PairsSize(left: seq<int>)
    ensures |Pairs(left)| == |Used(left)|
  {
    forall x | x in Used(left)
      ensures exists e :: e in Pairs(left) && e.0 == x
    {
      assert (x, left[x]) in Pairs(left);
    }
    EndsSize(Pairs(left), LeftEnd, Used(left));
  }

  /** Where the search stands when the first `n` left nodes have been tried: a
      matching, and a vertex cover of the edges out of those nodes that is no larger. */
  ghost predicate Progress(edges: set<Edge>, left: seq<int>, right: seq<int>, cl: set<int>, cr: set<int>, n: nat) {
    && MutuallyReferent(left, right) && LinksAreEdges(edges, left)
    && (forall l | n <= l < |left| :: left[l] == UNUSED)
    && (forall e | e in edges && e.0 < n :: e.0 in cl || e.1 in cr)
    && |cl| + |cr| <= |Pairs(left)|
  }

  lemma NotTriedYet(edges: set<Edge>, left: seq<int>, right: seq<int>, cl: set<int>, cr: set<int>, n: nat)
    requires n < |left| && Progress(edges, left, right, cl, cr, n)
    ensures left[n] == UNUSED
  {
  }

  lemma LinksInPlace(edges: set<Edge>, left: seq<int>, right: seq<int>, cl: set<int>, cr: set<int>, n: nat)
    requires Progress(edges, left, right, cl, cr, n)
    ensures MutuallyReferent(left, right) && LinksAreEdges(edges, left)
  {
  }

  /** A top-level success restores the mutual links and matches one more left node,
      the one it started from, which joins the cover. */
  lemma AugmentedAtTop(edges: set<Edge>, left0: seq<int>, right0: seq<int>, seen0: seq<bool>,
                       left: seq<int>, right: seq<int>, n: nat, cl: set<int>, cr: set<int>)
      returns (cl': set<int>)
    requires n < |left0| == |left| && |right0| == |right| == |seen0|
    requires Progress(edges, left0, right0, cl, cr, n)
    requires Augmented(edges, left0, right0, seen0, left, right, n)
    ensures |Pairs(left)| == |Pairs(left0)| + 1
    ensures Progress(edges, left, right, cl', cr, n + 1)
  {
    AugmentedLinks(edges, left0, right0, seen0, left, right, n);
    PairsGrewByOne(left0, left, n);
    cl' := WithOneMore(cl, n);
  }

  lemma PairsGrewByOne(left0: seq<int>, left: seq<int>, n: int)
    requires Used(left) == Used(left0) + {n} && n !in Used(left0)
    ensures |Pairs(left)| == |Pairs(left0)| + 1
  {
    PairsSize(left);
    PairsSize(left0);
    AddOneSize(Used(left0), n);
  }

  lemma AugmentedLinks(edges: set<Edge>, left0: seq<int>, right0: seq<int>, seen0: seq<bool>,
                       left: seq<int>, right: seq<int>, n: nat)
    requires n < |left0| == |left| && |right0| == |right| == |seen0|
    requires MutuallyReferent(left0, right0) && left0[n] == UNUSED
    requires Augmented(edges, left0, right0, seen0, left, right, n)
    ensures MutuallyReferent(left, right) && LinksAreEdges(edges, left)
    ensures Used(left) == Used(left0) + {n} && Used(right0) <= Used(right)
  {
  }

  /** After a top-level failure the seen right nodes replace their mates in the
      cover, which then covers the edges out of `n` as well. */
  lemma DeadEndAtTop(edges: set<Edge>, left: seq<int>, right: seq<int>, seen0: seq<bool>, seen: seq<bool>,
                     n: nat, cl: set<int>, cr: set<int>) returns (cl': set<int>, cr': set<int>)
    requires n < |left| && |right| == |seen0| == |seen|
    requires forall e | e in edges :: 0 <= e.0 < |left| && 0 <= e.1 < |right|
    requires forall r | 0 <= r < |seen0| :: !seen0[r]
    requires Progress(edges, left, right, cl, cr, n)
    requires DeadEnd(edges, right, seen0, seen, n)
    ensures Progress(edges, left, right, cl', cr', n + 1)
  {
    var p := Pairs(left);
    var s := set r | 0 <= r < |seen| && seen[r];
    PairsAreMatching(edges, left, right);
    forall r | r in s
      ensures exists e :: e in p && e.1 == r
    {
      assert (right[r], r) in p;
    }
    cl', cr' := ReplaceMates(p, cl, cr, s);
    forall e | e in edges && e.0 <= n
      ensures e.0 in cl' || e.1 in cr'
    {
      if e.0 != n && e.0 in cl && e.0 !in cl' {
        var f :| f in p && f.0 == e.0 && f.1 in s;
        assert right[f.1] == e.0;
      }
    }
  }

  /** Either way the cover keeps up with one more tried node. */
  lemma OneMoreTried(edges: set<Edge>, left0: seq<int>, right0: seq<int>, seen0: seq<bool>,
                     left: seq<int>, right: seq<int>, seen: seq<bool>, found: bool,
                     n: nat, cl: set<int>, cr: set<int>) returns (cl': set<int>, cr': set<int>)
    requires n < |left0| == |left| && |right0| == |right| == |seen0| == |seen|
    requires forall e | e in edges :: 0 <= e.0 < |left| && 0 <= e.1 < |right|
    requires forall r | 0 <= r < |seen0| :: !seen0[r]
    requires Progress(edges, left0, right0, cl, cr, n)
    requires if found then Augmented(edges, left0, right0, seen0, left, right, n)
             else left == left0 && right == right0 && DeadEnd(edges, right, seen0, seen, n)
    ensures Progress(edges, left, right, cl', cr', n + 1)
  {
    if found {
      cl' := AugmentedAtTop(edges, left0, right0, seen0, left, right, n, cl, cr);
      cr' := cr;
    } else {
      cl', cr' := DeadEndAtTop(edges, left, right, seen0, seen, n, cl, cr);
    }
  }

  /** A finished search has found a maximum matching. */
  lemma FinishedIsMaximum(edges: set<Edge>, left: seq<int>, right: seq<int>, cl: set<int>, cr: set<int>)
    requires forall e | e in edges :: 0 <= e.0 < |left|
    requires Progress(edges, left, right, cl, cr, |left|)
    ensures IsMaximum(edges, Pairs(left))
  {
    PairsAreMatching(edges, left, right);
    forall q | IsMatching(edges, q)
      ensures |q| <= |Pairs(left)|
    {
      WeakDuality(q, cl, cr);
    }
  }

  ghost function SetOf(s: seq<Edge>): set<Edge> {
    set i | 0 <= i < |s| :: s[i]
  }

  lemma SetOfGrows(s: seq<Edge>, e: Edge)
    requires |SetOf(s)| == |s|
    requires forall i | 0 <= i < |s| :: s[i].0 < e.0
    ensures SetOf(s + [e]) == SetOf(s) + {e} && |SetOf(s + [e])| == |s| + 1
  {
    assert SetOf(s + [e]) == SetOf(s) + {e} by {
      assert (s + [e])[|s|] == e;
      forall i | 0 <= i < |s|
        ensures s[i] in SetOf(s + [e])
      {
        assert (s + [e])[i] == s[i];
      }
    }
    assert e !in SetOf(s);
  }

  lemma PairsGrow(left: seq<int>, n: nat)
    requires n < |left|
    ensures Pairs(left[..n + 1]) == if left[n] == UNUSED then Pairs(left[..n]) else Pairs(left[..n]) + {(n, left[n])}
  {
    var a, b := left[..n], left[..n + 1];
    forall e | e in Pairs(b)
      ensures e in Pairs(a) || (left[n] != UNUSED && e == (n, left[n]))
    {
      assert e.0 < n ==> a[e.0] == b[e.0];
    }
    forall e | e in Pairs(a)
      ensures e in Pairs(b)
    {
      assert a[e.0] == b[e.0];
    }
    assert left[n] != UNUSED ==> b[n] == left[n];
  }

  /** The list holds the pairs of the first `n` left nodes, in order and without repetition. */
  ghost predicate Listed(result: seq<Edge>, left: seq<int>, n: nat)
    requires n <= |left|
  {
    && SetOf(result) == Pairs(left[..n]) && |SetOf(result)| == |result|
    && (forall i | 0 <= i < |result| :: result[i].0 < n)
    && forall i, j | 0 <= i < j < |result| :: result[i].0 < result[j].0
  }

  lemma NothingListed(left: seq<int>)
    ensures Listed([], left, 0)
  {
  }

  lemma ListedNext(result: seq<Edge>, left: seq<int>, n: nat)
    requires n < |left| && Listed(result, left, n)
    ensures Listed(if left[n] != UNUSED then result + [(n, left[n])] else result, left, n + 1)
  {
    hide Pairs, SetOf;
    PairsGrow(left, n);
    if left[n] != UNUSED {
      SetOfGrows(result, (n, left[n]));
    }
  }

  lemma AllListed(result: seq<Edge>, left: seq<int>)
    requires Listed(result, left, |left|)
    ensures SetOf(result) == Pairs(left) && |SetOf(result)| == |result|
    ensures forall i, j | 0 <= i < j < |result| :: result[i].0 < result[j].0
  {
    assert left[..|left|] == left;
  }

  class MaxBipartiteMatchState {
    const graph: MatchMatrix
    const left: array<int>
    const right: array<int>

    ghost predicate Valid()
      reads left, right, graph.matched
    {
      && graph.Valid()
      && left != right
      && left.Length == graph.numElements && right.Length == graph.numMatchers
      && MutuallyReferent(left[..], right[..])
      && LinksAreEdges(graph.Edges(), left[..])
    }

    constructor (graph: MatchMatrix)
      requires graph.Valid()
      ensures this.graph == graph && fresh(left) && fresh(right) && Valid()
      ensures forall l | 0 <= l < left.Length :: left[l] == UNUSED
    {
      this.graph := graph;
      left := new int[graph.numElements](_ => UNUSED);
      right := new int[graph.numMatchers](_ => UNUSED);
    }

    /** Depth-first search from `ilhs` for a path to an unused right node. */
    method TryAugment(ilhs: nat, seen: array<bool>) returns (found: bool)
      requires Valid() && ilhs < left.Length
      requires seen.Length == right.Length && seen != graph.matched
      requires left[ilhs] != UNUSED ==> seen[left[ilhs]]
      modifies left, right, seen
      decreases Unseen(seen)
      ensures Grew(old(seen[..]), seen[..])
      ensures found ==> Augmented(graph.Edges(), old(left[..]), old(right[..]), old(seen[..]),
                                  left[..], right[..], ilhs)
      ensures !found ==> left[..] == old(left[..]) && right[..] == old(right[..])
      ensures !found ==> DeadEnd(graph.Edges(), right[..], old(seen[..]), seen[..], ilhs)
    {
      ghost var edges, left0, right0, seen0 := graph.Edges(), left[..], right[..], seen[..];
      hide Explored, DeadEnd, Augmented, LinksAreEdges, MutuallyReferent, Grew, MatchMatrix.Edges, MatchMatrix.HasEdge;
      ExploreFromStart(edges, right0, seen0, ilhs);
      var irhs := 0;
      while irhs < graph.numMatchers
        invariant 0 <= irhs <= graph.numMatchers
        invariant left[..] == left0 && right[..] == right0
        invariant Grew(seen0, seen[..])
        invariant Explored(edges, right0, seen0, seen[..], ilhs, irhs)
      {
        graph.EdgeIs(ilhs, irhs);
        if !seen[irhs] && graph.HasEdge(ilhs, irhs) {
          ghost var seen1 := seen[..];
          GrewTwice(seen0, seen1, irhs, seen1);
          seen[irhs] := true;
          assert seen[..] == seen1[irhs := true];
          var toSink := right[irhs] == UNUSED;
          if toSink {
            LinkToSink(edges, left0, right0, seen0, ilhs, irhs);
            assert left[..] == left0 && right[..] == right0;
          } else {
            Mate(left0, right0, irhs);
            assert irhs in old(Unseen(seen)) && irhs !in Unseen(seen);
            assert Unseen(seen) < old(Unseen(seen));
            toSink := TryAugment(right[irhs], seen);
            GrewTwice(seen0, seen1, irhs, seen[..]);
            if toSink {
              LinkThrough(edges, left0, right0, seen0, seen1[irhs := true], left[..], right[..], ilhs, irhs);
            }
          }
          if toSink {
            ghost var left1, right1 := left[..], right[..];
            left[ilhs] := irhs;
            right[irhs] := ilhs;
            assert left[..] == left1[ilhs := irhs] && right[..] == right1[irhs := ilhs];
            return true;
          }
          ExploreFurther(edges, right0, seen0, seen1, seen[..], ilhs, irhs);
        } else {
          ExploreSkipping(edges, right0, seen0, seen[..], ilhs, irhs);
        }
        irhs := irhs + 1;
      }
      return false;
    }

    /** The matched pairs, by increasing left node: no matching has more. */
    method Compute() returns (result: seq<Edge>)
      requires Valid()
      requires forall l | 0 <= l < left.Length :: left[l] == UNUSED
      modifies left, right
      ensures Valid()
      ensures IsMaximum(graph.Edges(), SetOf(result)) && |SetOf(result)| == |result|
      ensures forall i, j | 0 <= i < j < |result| :: result[i].0 < result[j].0
    {
      ghost var edges := graph.Edges();
      ghost var cl: set<int>, cr: set<int> := {}, {};
      assert Progress(edges, left[..], right[..], cl, cr, 0);
      graph.EdgesInRange();
      hide Progress, MutuallyReferent, Grew, Augmented, DeadEnd, LinksAreEdges, Pairs, SetOf, IsMaximum;
      hide MatchMatrix.Edges, MatchMatrix.HasEdge;
      var ilhs := 0;
      while ilhs < graph.numElements
        invariant 0 <= ilhs <= graph.numElements && Valid()
        invariant Progress(edges, left[..], right[..], cl, cr, ilhs)
      {
        ghost var left0, right0 := left[..], right[..];
        NotTriedYet(edges, left0, right0, cl, cr, ilhs);
        assert left[ilhs] == UNUSED;  // the check the source makes here cannot fail
        var seen := new bool[graph.numMatchers](_ => false);
        ghost var seen0 := seen[..];
        var found := TryAugment(ilhs, seen);
        cl, cr := OneMoreTried(edges, left0, right0, seen0, left[..], right[..], seen[..], found, ilhs, cl, cr);
        LinksInPlace(edges, left[..], right[..], cl, cr, ilhs + 1);
        ilhs := ilhs + 1;
      }
      FinishedIsMaximum(edges, left[..], right[..], cl, cr);
      result := CollectPairs();
    }

    method CollectPairs() returns (result: seq<Edge>)
      requires Valid()
      ensures SetOf(result) == Pairs(left[..]) && |SetOf(result)| == |result|
      ensures forall i, j | 0 <= i < j < |result| :: result[i].0 < result[j].0
    {
      result := [];
      NothingListed(left[..]);
      hide *;
      var ilhs := 0;
      while ilhs < left.Length
        invariant 0 <= ilhs <= left.Length && Listed(result, left[..], ilhs)
      {
        var irhs := left[ilhs];
        ListedNext(result, left[..], ilhs);
        if irhs != UNUSED {
          result := result + [(ilhs, irhs)];
        }
        ilhs := ilhs + 1;
      }
      AllListed(result, left[..]);
    }
  }
}
