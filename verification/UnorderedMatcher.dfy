/** The untyped half of the unordered-elements matchers: which connectivity
    matrices they accept. */
module UnorderedMatcher {
  import opened BipartiteGraph
  import opened MatchMatrices
  import opened MaxBipartiteMatch

  /** ExactMatch has both the Superset and the Subset bit. */
  datatype MatchFlags = Superset | Subset | ExactMatch {
    predicate HasSuperset() { Superset? || ExactMatch? }
    predicate HasSubset() { Subset? || ExactMatch? }
  }

  /** Some one-to-one assignment uses every matcher (superset), every element
      (subset), or both. */
  ghost predicate PairingExists(edges: set<Edge>, nl: nat, nr: nat, flags: MatchFlags) {
    exists p :: IsMatching(edges, p)
                && (flags.HasSuperset() ==> Saturates(p, RightEnd, nr))
                && (flags.HasSubset() ==> Saturates(p, LeftEnd, nl))
  }

  /** Every matcher (superset), every element (subset), or both has some edge. */
  ghost predicate NobodyIsolated(edges: set<Edge>, nl: nat, nr: nat, flags: MatchFlags) {
    && (flags.HasSuperset() ==> Saturates(edges, RightEnd, nr))
    && (flags.HasSubset() ==> Saturates(edges, LeftEnd, nl))
  }

  ghost predicate MatcherUsed(p: set<Edge>, r: int) { exists l :: (l, r) in p }

  ghost predicate ElementUsed(p: set<Edge>, l: int) { exists r :: (l, r) in p }

  /** Every matcher (every element) stands in one of the pairs. */
  ghost predicate MatchersUsed(p: set<Edge>, nr: nat) {
    forall r | 0 <= r < nr :: MatcherUsed(p, r)
  }

  ghost predicate ElementsUsed(p: set<Edge>, nl: nat) {
    forall l | 0 <= l < nl :: ElementUsed(p, l)
  }

  lemma MatcherIsTouched(p: set<Edge>, r: int)
    ensures MatcherUsed(p, r) <==> Touches(p, RightEnd, r)
  {
    if MatcherUsed(p, r) {
      var l :| (l, r) in p;
      Touching(p, (l, r));
    }
    if Touches(p, RightEnd, r) {
      var e :| e in p && RightEnd(e) == r;
      Using(p, e);
    }
  }

  lemma ElementIsTouched(p: set<Edge>, l: int)
    ensures ElementUsed(p, l) <==> Touches(p, LeftEnd, l)
  {
    if ElementUsed(p, l) {
      var r :| (l, r) in p;
      Touching(p, (l, r));
    }
    if Touches(p, LeftEnd, l) {
      var e :| e in p && LeftEnd(e) == l;
      Using(p, e);
    }
  }

  lemma Using(p: set<Edge>, e: Edge)
    requires e in p
    ensures MatcherUsed(p, RightEnd(e)) && ElementUsed(p, LeftEnd(e))
  {
    assert e == (LeftEnd(e), RightEnd(e));
    assert (LeftEnd(e), RightEnd(e)) in p;
  }

  lemma Touching(p: set<Edge>, e: Edge)
    requires e in p
    ensures Touches(p, RightEnd, e.1) && Touches(p, LeftEnd, e.0)
  {
    assert RightEnd(e) == e.1 && LeftEnd(e) == e.0;
  }

  lemma UsedIsSaturated(p: set<Edge>, nl: nat, nr: nat)
    ensures MatchersUsed(p, nr) <==> Saturates(p, RightEnd, nr)
    ensures ElementsUsed(p, nl) <==> Saturates(p, LeftEnd, nl)
  {
    hide MatcherUsed, ElementUsed, Touches;
    forall x: int
      ensures MatcherUsed(p, x) <==> Touches(p, RightEnd, x)
      ensures ElementUsed(p, x) <==> Touches(p, LeftEnd, x)
    {
      MatcherIsTouched(p, x);
      ElementIsTouched(p, x);
    }
  }

  /** What each of the flags asks for. */
  lemma WhatFlagsAsk(edges: set<Edge>, nl: nat, nr: nat)
    ensures PairingExists(edges, nl, nr, Superset) <==> exists p :: IsMatching(edges, p) && MatchersUsed(p, nr)
    ensures PairingExists(edges, nl, nr, Subset) <==> exists p :: IsMatching(edges, p) && ElementsUsed(p, nl)
    ensures PairingExists(edges, nl, nr, ExactMatch)
            <==> exists p :: IsMatching(edges, p) && MatchersUsed(p, nr) && ElementsUsed(p, nl)
  {
    hide IsMatching, Saturates, MatchersUsed, ElementsUsed;
    forall p: set<Edge>
      ensures MatchersUsed(p, nr) <==> Saturates(p, RightEnd, nr)
      ensures ElementsUsed(p, nl) <==> Saturates(p, LeftEnd, nl)
    {
      UsedIsSaturated(p, nl, nr);
    }
  }

  /** What VerifyMatchMatrix rejects, FindPairing would reject too: the check is
      only a shortcut with better messages. */
  lemma IsolatedMeansNoPairing(edges: set<Edge>, nl: nat, nr: nat, flags: MatchFlags)
    requires PairingExists(edges, nl, nr, flags)
    ensures NobodyIsolated(edges, nl, nr, flags)
  {
    var p :| IsMatching(edges, p)
             && (flags.HasSuperset() ==> Saturates(p, RightEnd, nr))
             && (flags.HasSubset() ==> Saturates(p, LeftEnd, nl));
    assert forall r | Touches(p, RightEnd, r) :: Touches(edges, RightEnd, r);
    assert forall l | Touches(p, LeftEnd, l) :: Touches(edges, LeftEnd, l);
  }

  /** A pairing exists exactly when a maximum matching is large enough. */
  lemma MaximumDecides(edges: set<Edge>, p: set<Edge>, nl: nat, nr: nat, flags: MatchFlags)
    requires forall e | e in edges :: 0 <= e.0 < nl && 0 <= e.1 < nr
    requires IsMaximum(edges, p)
    ensures PairingExists(edges, nl, nr, flags)
            <==> (flags.HasSuperset() ==> |p| >= nr) && (flags.HasSubset() ==> |p| >= nl)
  {
    SaturationIsSize(p, nl, nr);
    if PairingExists(edges, nl, nr, flags) {
      var q :| IsMatching(edges, q)
               && (flags.HasSuperset() ==> Saturates(q, RightEnd, nr))
               && (flags.HasSubset() ==> Saturates(q, LeftEnd, nl));
      SaturationIsSize(q, nl, nr);
    }
  }

  method FindMaxBipartiteMatching(graph: MatchMatrix) returns (pairs: seq<Edge>)
    requires graph.Valid()
    ensures IsMaximum(graph.Edges(), SetOf(pairs)) && |SetOf(pairs)| == |pairs|
  {
    var state := new MaxBipartiteMatchState(graph);
    pairs := state.Compute();
  }

  method FindPairing(matrix: MatchMatrix, flags: MatchFlags) returns (ok: bool)
    requires matrix.Valid()
    ensures ok <==> PairingExists(matrix.Edges(), matrix.numElements, matrix.numMatchers, flags)
    ensures flags == Superset ==>
              (ok <==> exists p :: IsMatching(matrix.Edges(), p) && MatchersUsed(p, matrix.numMatchers))
    ensures flags == Subset ==>
              (ok <==> exists p :: IsMatching(matrix.Edges(), p) && ElementsUsed(p, matrix.numElements))
    ensures flags == ExactMatch ==>
              (ok <==> exists p :: IsMatching(matrix.Edges(), p) && MatchersUsed(p, matrix.numMatchers)
                                   && ElementsUsed(p, matrix.numElements))
  {
    hide *;
    WhatFlagsAsk(matrix.Edges(), matrix.numElements, matrix.numMatchers);
    matrix.EdgesInRange();
    var matches := FindMaxBipartiteMatching(matrix);
    var maxFlow := |matches|;
    MaximumDecides(matrix.Edges(), SetOf(matches), matrix.numElements, matrix.numMatchers, flags);
    if flags.HasSuperset() && maxFlow < matrix.numMatchers {
      return false;
    }
    if flags.HasSubset() && maxFlow < matrix.numElements {
      return false;
    }
    return true;
  }

  /** Row-major order: the cells already visited at row `ilhs`, column `irhs`. */
  ghost predicate Visited(e: Edge, ilhs: int, irhs: int) {
    e.0 < ilhs || (e.0 == ilhs && e.1 < irhs)
  }

  /** The two mark vectors say exactly which nodes have a visited edge. */
  ghost predicate Marked(edges: set<Edge>, em: seq<bool>, mm: seq<bool>, ilhs: int, irhs: int) {
    && (forall l | 0 <= l < |em| :: em[l] <==> exists e :: e in edges && Visited(e, ilhs, irhs) && e.0 == l)
    && (forall r | 0 <= r < |mm| :: mm[r] <==> exists e :: e in edges && Visited(e, ilhs, irhs) && e.1 == r)
  }

  lemma NoneMarked(edges: set<Edge>, em: seq<bool>, mm: seq<bool>)
    requires forall e | e in edges :: 0 <= e.0 < |em| && 0 <= e.1 < |mm|
    requires (forall l | 0 <= l < |em| :: !em[l]) && forall r | 0 <= r < |mm| :: !mm[r]
    ensures Marked(edges, em, mm, 0, 0)
  {
  }

  lemma MarkCell(edges: set<Edge>, em: seq<bool>, mm: seq<bool>, ilhs: nat, irhs: nat)
    requires ilhs < |em| && irhs < |mm| && Marked(edges, em, mm, ilhs, irhs)
    ensures var b := (ilhs, irhs) in edges;
            Marked(edges, em[ilhs := em[ilhs] || b], mm[irhs := mm[irhs] || b], ilhs, irhs + 1)
  {
    forall e: Edge
      ensures Visited(e, ilhs, irhs + 1) <==> Visited(e, ilhs, irhs) || e == (ilhs, irhs)
    {
      assert e == (e.0, e.1);
    }
  }

  lemma MarkRow(edges: set<Edge>, em: seq<bool>, mm: seq<bool>, ilhs: nat)
    requires forall e | e in edges :: 0 <= e.1 < |mm|
    requires Marked(edges, em, mm, ilhs, |mm|)
    ensures Marked(edges, em, mm, ilhs + 1, 0)
  {
    assert forall e | e in edges :: Visited(e, ilhs, |mm|) <==> Visited(e, ilhs + 1, 0);
  }

  lemma AllMarked(edges: set<Edge>, em: seq<bool>, mm: seq<bool>)
    requires forall e | e in edges :: e.0 < |em|
    requires Marked(edges, em, mm, |em|, 0)
    ensures (forall l | 0 <= l < |em| :: em[l]) <==> Saturates(edges, LeftEnd, |em|)
    ensures (forall r | 0 <= r < |mm| :: mm[r]) <==> Saturates(edges, RightEnd, |mm|)
  {
    assert forall e | e in edges :: Visited(e, |em|, 0);
    assert forall l | 0 <= l < |em| :: em[l] <==> Touches(edges, LeftEnd, l);
    assert forall r | 0 <= r < |mm| :: mm[r] <==> Touches(edges, RightEnd, r);
  }

  /** One cell of the matrix marks its row and its column. */
  method Mark(elementMatched: array<bool>, matcherMatched: array<bool>, ilhs: nat, irhs: nat, matched: bool,
              ghost edges: set<Edge>)
    requires elementMatched != matcherMatched && ilhs < elementMatched.Length && irhs < matcherMatched.Length
    requires Marked(edges, elementMatched[..], matcherMatched[..], ilhs, irhs) && (matched <==> (ilhs, irhs) in edges)
    modifies elementMatched, matcherMatched
    ensures Marked(edges, elementMatched[..], matcherMatched[..], ilhs, irhs + 1)
  {
    hide Marked;
    ghost var em, mm := elementMatched[..], matcherMatched[..];
    MarkCell(edges, em, mm, ilhs, irhs);
    elementMatched[ilhs] := elementMatched[ilhs] || matched;
    matcherMatched[irhs] := matcherMatched[irhs] || matched;
    assert elementMatched[..] == em[ilhs := em[ilhs] || matched];
    assert matcherMatched[..] == mm[irhs := mm[irhs] || matched];
  }

  method MarkMatched(matrix: MatchMatrix) returns (elementMatched: array<bool>, matcherMatched: array<bool>)
    requires matrix.Valid()
    ensures elementMatched.Length == matrix.numElements && matcherMatched.Length == matrix.numMatchers
    ensures (forall l | 0 <= l < elementMatched.Length :: elementMatched[l])
            <==> Saturates(matrix.Edges(), LeftEnd, matrix.numElements)
    ensures (forall r | 0 <= r < matcherMatched.Length :: matcherMatched[r])
            <==> Saturates(matrix.Edges(), RightEnd, matrix.numMatchers)
  {
    elementMatched := new bool[matrix.numElements](_ => false);
    matcherMatched := new bool[matrix.numMatchers](_ => false);
    ghost var edges := matrix.Edges();
    NoneMarked(edges, elementMatched[..], matcherMatched[..]);
    matrix.EdgesInRange();
    hide Marked, Saturates, MatchMatrix.Edges, MatchMatrix.HasEdge;
    var ilhs := 0;
    while ilhs < matrix.numElements
      invariant 0 <= ilhs <= matrix.numElements
      invariant Marked(edges, elementMatched[..], matcherMatched[..], ilhs, 0)
      invariant matrix.Edges() == edges
    {
      var irhs := 0;
      while irhs < matrix.numMatchers
        invariant 0 <= irhs <= matrix.numMatchers
        invariant Marked(edges, elementMatched[..], matcherMatched[..], ilhs, irhs)
        invariant matrix.Edges() == edges
      {
        matrix.EdgeIs(ilhs, irhs);
        Mark(elementMatched, matcherMatched, ilhs, irhs, matrix.HasEdge(ilhs, irhs), edges);
        irhs := irhs + 1;
      }
      MarkRow(edges, elementMatched[..], matcherMatched[..], ilhs);
      ilhs := ilhs + 1;
    }
    AllMarked(edges, elementMatched[..], matcherMatched[..]);
  }

  method VerifyMatchMatrix(matrix: MatchMatrix, flags: MatchFlags) returns (result: bool)
    requires matrix.Valid()
    ensures result <==> NobodyIsolated(matrix.Edges(), matrix.numElements, matrix.numMatchers, flags)
    ensures result <==>
              && (flags == Superset || flags == ExactMatch ==> MatchersUsed(matrix.Edges(), matrix.numMatchers))
              && (flags == Subset || flags == ExactMatch ==> ElementsUsed(matrix.Edges(), matrix.numElements))
  {
    result := true;
    UsedIsSaturated(matrix.Edges(), matrix.numElements, matrix.numMatchers);
    hide MatchersUsed, ElementsUsed;
    var elementMatched, matcherMatched := MarkMatched(matrix);
    if flags.HasSuperset() {
      var mi := 0;
      while mi < matcherMatched.Length
        invariant 0 <= mi <= matcherMatched.Length
        invariant result <==> forall r | 0 <= r < mi :: matcherMatched[r]
      {
        if !matcherMatched[mi] {
          result := false;
        }
        mi := mi + 1;
      }
    }
    ghost var soFar := result;
    if flags.HasSubset() {
      var ei := 0;
      while ei < elementMatched.Length
        invariant 0 <= ei <= elementMatched.Length
        invariant result <==> soFar && forall l | 0 <= l < ei :: elementMatched[l]
      {
        if !elementMatched[ei] {
          result := false;
        }
        ei := ei + 1;
      }
    }
  }

  /** The whole matcher: its early exits change nothing about what is accepted. */
  method MatchAndExplain(matrix: MatchMatrix, flags: MatchFlags) returns (ok: bool)
    requires matrix.Valid()
    ensures ok <==> PairingExists(matrix.Edges(), matrix.numElements, matrix.numMatchers, flags)
    ensures flags == Superset ==>
              (ok <==> exists p :: IsMatching(matrix.Edges(), p) && MatchersUsed(p, matrix.numMatchers))
    ensures flags == Subset ==>
              (ok <==> exists p :: IsMatching(matrix.Edges(), p) && ElementsUsed(p, matrix.numElements))
    ensures flags == ExactMatch ==>
              (ok <==> exists p :: IsMatching(matrix.Edges(), p) && MatchersUsed(p, matrix.numMatchers)
                                   && ElementsUsed(p, matrix.numElements))
  {
    hide *;
    ghost var edges, nl, nr := matrix.Edges(), matrix.numElements, matrix.numMatchers;
    WhatFlagsAsk(edges, nl, nr);
    matrix.EdgesInRange();
    if matrix.numElements == 0 && matrix.numMatchers == 0 {
      NothingToPair(edges, flags);
      return true;
    }
    if flags.ExactMatch? && matrix.numElements != matrix.numMatchers {
      ExactNeedsEqualSizes(edges, nl, nr);
      return false;
    }
    if PairingExists(edges, nl, nr, flags) {
      IsolatedMeansNoPairing(edges, nl, nr, flags);
    }
    ok := VerifyMatchMatrix(matrix, flags);
    if ok {
      ok := FindPairing(matrix, flags);
    }
  }

  lemma NothingToPair(edges: set<Edge>, flags: MatchFlags)
    ensures PairingExists(edges, 0, 0, flags)
  {
    assert IsMatching(edges, {});
  }

  lemma ExactNeedsEqualSizes(edges: set<Edge>, nl: nat, nr: nat)
    requires forall e | e in edges :: 0 <= e.0 < nl && 0 <= e.1 < nr
    requires nl != nr
    ensures !PairingExists(edges, nl, nr, ExactMatch)
  {
    if PairingExists(edges, nl, nr, ExactMatch) {
      var q :| IsMatching(edges, q) && Saturates(q, RightEnd, nr) && Saturates(q, LeftEnd, nl);
      SaturationIsSize(q, nl, nr);
    }
  }
}
