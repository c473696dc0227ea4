/** What every run of declarations and calls keeps, on plain values: the graph of
    prerequisites, the retired and the unsatisfied expectations, those that have
    accepted a call, and the accepted calls in order. */
module CallOrder {
  import opened Prerequisites
  import opened Traversal

  /** `used` have accepted a call that did not exceed their cardinality; `idle` are
      satisfied without any call. */
  ghost predicate RunOk<T>(g: Graph<T>, rank: map<T, nat>, retired: set<T>, used: set<T>, bad: set<T>, idle: set<T>) {
    && Closed(g) && Ranked(g, rank) && Downward(g, retired)
    && retired <= g.Keys && used <= g.Keys && bad <= g.Keys
    && (forall x, y | x in used && y in g && Reaches(g, x, y) :: y in retired && y !in bad)
    && (forall x | x in g && x !in bad && x !in idle :: x in used)
  }

  /** No call was accepted after one that has it among its prerequisites. */
  ghost predicate InOrder<T>(g: Graph<T>, used: set<T>, log: seq<T>) {
    && (forall i | 0 <= i < |log| :: log[i] in used)
    && forall i, j | 0 <= i < j < |log| :: !Reaches(g, log[i], log[j])
  }

  lemma Accepted<T>(g: Graph<T>, rank: map<T, nat>, retired: set<T>, used: set<T>, bad: set<T>, idle: set<T>,
                    log: seq<T>, x: T, retired': set<T>, bad': set<T>, idle': set<T>)
    requires RunOk(g, rank, retired, used, bad, idle) && InOrder(g, used, log)
    requires x in g && x !in retired && forall y | y in bad :: !Reaches(g, x, y)
    requires retired' <= g.Keys && Downward(g, retired')
    requires forall y | y in g :: y in retired || Reaches(g, x, y) ==> y in retired'
    requires bad' <= g.Keys && forall y | y in g && y != x :: (y in bad' <==> y in bad) && (y in idle' <==> y in idle)
    ensures RunOk(g, rank, retired', used + {x}, bad', idle') && InOrder(g, used + {x}, log + [x])
  {
    NotUsedAbove(g, rank, retired, used, bad, idle, x);
    forall z, y | z in used + {x} && y in g && Reaches(g, z, y)
      ensures y in retired' && y !in bad'
    {
      if z == x {
        ReachesLowersRank(g, rank, x, y);
      }
    }
  }

  /** Nothing that was used has an unretired prerequisite. */
  lemma NotUsedAbove<T>(g: Graph<T>, rank: map<T, nat>, retired: set<T>, used: set<T>, bad: set<T>, idle: set<T>, x: T)
    requires RunOk(g, rank, retired, used, bad, idle) && x in g && x !in retired
    ensures forall z | z in used :: !Reaches(g, z, x)
  {
  }

  /** An expectation may retire once its prerequisites have. */
  lemma SelfRetires<T>(g: Graph<T>, retired: set<T>, x: T)
    requires Closed(g) && x in g && Downward(g, retired)
    requires forall y | y in g && Reaches(g, x, y) :: y in retired
    ensures Downward(g, retired + {x})
  {
    forall y | y in g[x]
      ensures y in retired
    {
      ReachesDirectly(g, x, y);
      assert y in g;
    }
  }

  lemma Exceeded<T>(g: Graph<T>, rank: map<T, nat>, retired: set<T>, used: set<T>, bad: set<T>, idle: set<T>,
                    x: T, bad': set<T>, idle': set<T>)
    requires RunOk(g, rank, retired, used, bad, idle)
    requires x in g && x !in retired && x in bad'
    requires bad' <= g.Keys && forall y | y in g && y != x :: (y in bad' <==> y in bad) && (y in idle' <==> y in idle)
    ensures RunOk(g, rank, retired, used, bad', idle')
  {
    NotUsedAbove(g, rank, retired, used, bad, idle, x);
  }

  /** A new expectation may only have old ones as prerequisites. */
  ghost predicate Extends<T>(g: Graph<T>, g': Graph<T>, rank: map<T, nat>, rank': map<T, nat>, x: T) {
    && x !in g && g'.Keys == g.Keys + {x} && (forall y | y in g :: g'[y] == g[y]) && g'[x] <= g.Keys
    && g'.Keys <= rank'.Keys && (forall y | y in g && y in rank :: rank'[y] == rank[y])
    && forall y | y in g && y in rank :: rank[y] < rank'[x]
  }

  lemma Declared<T>(g: Graph<T>, rank: map<T, nat>, retired: set<T>, used: set<T>, bad: set<T>, idle: set<T>,
                    log: seq<T>, g': Graph<T>, rank': map<T, nat>, x: T, bad': set<T>, idle': set<T>)
    requires RunOk(g, rank, retired, used, bad, idle) && InOrder(g, used, log)
    requires Extends(g, g', rank, rank', x)
    requires bad' <= g'.Keys && forall y | y in g :: (y in bad' <==> y in bad) && (y in idle' <==> y in idle)
    requires x in bad' || x in idle'
    ensures RunOk(g', rank', retired, used, bad', idle') && InOrder(g', used, log)
  {
    forall y, z | y in g'.Keys && z in g'[y]
      ensures z in g' && rank'[z] < rank'[y]
    {
    }
    forall y, z | y in used && z in g' && Reaches(g', y, z)
      ensures z in retired && z !in bad'
    {
      ReachesInExtension(g, g', y, z);
      ReachesIsKnown(g, y, z);
    }
    forall i, j | 0 <= i < j < |log|
      ensures !Reaches(g', log[i], log[j])
    {
      ReachesInExtension(g, g', log[i], log[j]);
    }
  }

  /** In every state of a run, the reported unsatisfied prerequisites are none exactly
      when all prerequisites are satisfied: a satisfied expectation that has been
      called has nothing unsatisfied below it. */
  lemma ReportIsComplete<T>(g: Graph<T>, rank: map<T, nat>, retired: set<T>, used: set<T>, bad: set<T>, idle: set<T>,
                            x: T)
    requires RunOk(g, rank, retired, used, bad, idle) && x in g
    ensures (forall y | y in bad :: !Reaches(g, x, y))
            <==> (forall y | y in bad :: !Reaches(Expanded(g, idle + {x}), x, y))
  {
    SearchMissesNone(g, idle + {x}, bad, x);
  }

  // ---------- sequences ----------

  /** Each member has the one before it as an immediate prerequisite. */
  ghost predicate Chained<T>(g: Graph<T>, members: seq<T>) {
    && (forall i | 0 <= i < |members| :: members[i] in g)
    && forall i | 0 < i < |members| :: members[i - 1] in g[members[i]]
  }

  lemma {:induction false} LaterReachesEarlier<T>(g: Graph<T>, members: seq<T>, i: nat, j: nat)
    requires Chained(g, members) && i < j < |members|
    ensures Reaches(g, members[j], members[i])
    decreases j
  {
    if i == j - 1 {
      ReachesDirectly(g, members[j], members[i]);
    } else {
      LaterReachesEarlier(g, members, i, j - 1);
      ReachesThrough(g, members[j], members[j - 1], members[i]);
    }
  }

  /** The members of a sequence accept calls only in the order of the sequence. */
  lemma SequenceIsInOrder<T>(g: Graph<T>, rank: map<T, nat>, used: set<T>, log: seq<T>, members: seq<T>,
                             i: nat, j: nat, early: nat, late: nat)
    requires Ranked(g, rank) && InOrder(g, used, log) && Chained(g, members)
    requires early < late < |members| && i < |log| && j < |log|
    requires log[i] == members[early] && log[j] == members[late]
    ensures i < j
  {
    LaterReachesEarlier(g, members, early, late);
    ReachesLowersRank(g, rank, members[late], members[early]);
  }
}
