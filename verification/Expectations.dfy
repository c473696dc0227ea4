/** Expectations on mock functions: retiring prerequisites, testing them, and the
    order in which calls are accepted. */
module Expectations {
  import opened Prerequisites
  import opened Traversal

  /** Between(min, max), with the bounds in order. */
  datatype Cardinality = Between(min: nat, max: nat) {
    predicate Valid() { min <= max }
    predicate IsSatisfiedByCallCount(n: nat) { min <= n <= max }
    predicate IsSaturatedByCallCount(n: nat) { n >= max }
  }

  class Expectation {
    const cardinality: Cardinality
    const retiresOnSaturation: bool
    var immediatePrerequisites: set<Expectation>
    var callCount: nat
    var retired: bool

    constructor (cardinality: Cardinality, retiresOnSaturation: bool)
      ensures this.cardinality == cardinality && this.retiresOnSaturation == retiresOnSaturation
      ensures immediatePrerequisites == {} && callCount == 0 && !retired
    {
      this.cardinality := cardinality;
      this.retiresOnSaturation := retiresOnSaturation;
      immediatePrerequisites := {};
      callCount := 0;
      retired := false;
    }

    predicate IsSatisfied()
      reads `callCount
    {
      cardinality.IsSatisfiedByCallCount(callCount)
    }

    predicate IsSaturated()
      reads `callCount
    {
      cardinality.IsSaturatedByCallCount(callCount)
    }

    method IncrementCallCount()
      modifies `callCount
      ensures callCount == old(callCount) + 1
    {
      callCount := callCount + 1;
    }

    twostate lemma OthersUnchanged(all: set<Expectation>)
      requires forall x | x in all && x != this :: x.callCount == old(x.callCount)
      ensures forall x | x in all && x != this ::
                && (x in UnsatisfiedOf(all) <==> x in old(UnsatisfiedOf(all)))
                && (x in IdleOf(all) <==> x in old(IdleOf(all)))
      ensures UnsatisfiedOf(all) <= all && IdleOf(all) <= all
    {
    }

    method Retire(ghost all: set<Expectation>)
      requires this in all
      modifies `retired
      ensures retired && RetiredOf(all) == old(RetiredOf(all)) + {this}
    {
      retired := true;
    }

    /** Retires exactly the transitive prerequisites. The early exit relies on
        nothing being retired before its prerequisites. */
    method RetireAllPreRequisites(ghost all: set<Expectation>)
      requires this in all && Closed(GraphOf(all)) && Downward(GraphOf(all), RetiredOf(all))
      modifies all`retired
      ensures Downward(GraphOf(all), RetiredOf(all))
      ensures forall x | x in all :: x in RetiredOf(all) <==> x in old(RetiredOf(all)) || Reaches(GraphOf(all), this, x)
    {
      ghost var g, retired0 := GraphOf(all), RetiredOf(all);
      if retired {
        forall x | x in all && Reaches(g, this, x)
          ensures x in RetiredOf(all)
        {
          ReachesStaysIn(g, this, x, retired0);
        }
        return;
      }
      var stack := [this];
      PendingAtFirst(g, this, retired0);
      Facts(all, this);
      hide *;
      while stack != []
        invariant GraphOf(all) == g && RetiredOf(all) <= all
        invariant Pending(g, this, retired0, RetiredOf(all), stack)
        decreases all - RetiredOf(all), |stack|
      {
        PendingPops(g, this, retired0, RetiredOf(all), stack);
        var exp := stack[|stack| - 1];
        stack := stack[..|stack| - 1];
        ghost var retired1, size := RetiredOf(all), |stack|;
        Facts(all, exp);
        var todo := exp.immediatePrerequisites;
        while todo != {}
          invariant GraphOf(all) == g && RetiredOf(all) <= all
          invariant Expanding(g, this, retired0, RetiredOf(all), stack, exp, todo)
          invariant retired1 <= RetiredOf(all)
          invariant RetiredOf(all) == retired1 ==> |stack| == size
          decreases todo
        {
          var next :| next in todo;
          ghost var retired2 := RetiredOf(all);
          ExpandingVisits(g, this, retired0, retired2, stack, exp, todo, next);
          Facts(all, next);
          if !next.retired {
            next.Retire(all);
            stack := stack + [next];
          }
          todo := todo - {next};
        }
        ExpandingEnds(g, this, retired0, RetiredOf(all), stack, exp);
      }
      PendingEnds(g, this, retired0, RetiredOf(all));
    }

    /** True exactly when no transitive prerequisite is unsatisfied. The walk keeps no
        record of visited nodes; it ends because the graph is acyclic. */
    method AllPrerequisitesAreSatisfied(ghost all: set<Expectation>, ghost rank: map<Expectation, nat>)
        returns (ok: bool)
      requires this in all && Closed(GraphOf(all)) && Ranked(GraphOf(all), rank)
      ensures ok <==> forall x | x in UnsatisfiedOf(all) :: !Reaches(GraphOf(all), this, x)
    {
      ghost var g, bad := GraphOf(all), UnsatisfiedOf(all);
      ghost var b := |g.Keys| + 1;
      ghost var none: set<Expectation> := {};
      var stack := [this];
      SearchingAtFirst(g, this, bad);
      KnownRanks(all, rank, this);
      hide *;
      while stack != []
        invariant GraphOf(all) == g && UnsatisfiedOf(all) == bad
        invariant forall x | x in stack :: x in rank
        invariant Searching(g, this, bad, none, stack)
        decreases Load(b, rank, stack)
      {
        SearchingPops(g, this, bad, none, stack);
        var exp := stack[|stack| - 1];
        FewPrerequisites(g, rank, exp);
        LighterAtFirst(b, rank, stack, g[exp]);
        ghost var before := Load(b, rank, stack);
        stack := stack[..|stack| - 1];
        Facts(all, exp);
        var todo := exp.immediatePrerequisites;
        while todo != {}
          invariant GraphOf(all) == g && UnsatisfiedOf(all) == bad
          invariant SearchingBelow(g, this, bad, none, stack, exp, todo)
          invariant forall x | x in stack :: x in rank
          invariant Lighter(b, rank, stack, exp, todo, before)
          decreases todo
        {
          var next :| next in todo;
          SearchingVisits(g, this, bad, none, stack, exp, todo, next, true);
          Facts(all, next);
          if !next.IsSatisfied() {
            assert next in UnsatisfiedOf(all) && Reaches(GraphOf(all), this, next);
            return false;
          }
          LighterAfter(b, rank, stack, exp, todo, before, next, true);
          stack := stack + [next];
          todo := todo - {next};
        }
        SearchingDone(g, this, bad, none, stack, exp);
        LighterMeans(b, rank, stack, exp, todo, before);
      }
      SearchingEnds(g, this, bad, none);
      return true;
    }

    /** The unsatisfied prerequisites on the way down through satisfied expectations
        that have not been called yet. */
    method FindUnsatisfiedPrerequisites(ghost all: set<Expectation>, ghost rank: map<Expectation, nat>)
        returns (result: set<Expectation>)
      requires this in all && Closed(GraphOf(all)) && Ranked(GraphOf(all), rank)
      ensures forall x :: x in result <==>
                x in UnsatisfiedOf(all) && Reaches(Expanded(GraphOf(all), IdleOf(all) + {this}), this, x)
    {
      ghost var g, bad := GraphOf(all), UnsatisfiedOf(all);
      ghost var b := |g.Keys| + 1;
      ghost var idle := IdleOf(all);
      ghost var expand := idle + {this};
      ghost var e := Expanded(g, expand);
      ExpandedIsClosed(g, expand);
      result := {};
      var stack := [this];
      SearchingAtFirst(e, this, bad);
      KnownRanks(all, rank, this);
      hide *;
      while stack != []
        invariant GraphOf(all) == g && UnsatisfiedOf(all) == bad && IdleOf(all) == idle
        invariant forall x | x in stack :: x in rank && x in expand
        invariant Searching(e, this, bad, result, stack)
        decreases Load(b, rank, stack)
      {
        SearchingPops(e, this, bad, result, stack);
        var exp := stack[|stack| - 1];
        FewPrerequisites(g, rank, exp);
        LighterAtFirst(b, rank, stack, g[exp]);
        ghost var before := Load(b, rank, stack);
        stack := stack[..|stack| - 1];
        Facts(all, exp);
        var todo := exp.immediatePrerequisites;
        while todo != {}
          invariant GraphOf(all) == g && UnsatisfiedOf(all) == bad && IdleOf(all) == idle
          invariant SearchingBelow(e, this, bad, result, stack, exp, todo)
          invariant todo <= exp.immediatePrerequisites
          invariant forall x | x in stack :: x in rank && x in expand
          invariant Lighter(b, rank, stack, exp, todo, before)
          decreases todo
        {
          var next :| next in todo;
          ghost var push := next.IsSatisfied() && next.callCount == 0;
          Facts(all, next);
          BelowIsFromStart(e, this, bad, result, stack, exp, todo);
          BareBelowStart(g, rank, idle, this, exp, next);
          SearchingVisits(e, this, bad, result, stack, exp, todo, next, push);
          LighterAfter(b, rank, stack, exp, todo, before, next, push);
          if next.IsSatisfied() {
            if next.callCount == 0 {
              stack := stack + [next];
            }
          } else {
            result := result + {next};
          }
          todo := todo - {next};
        }
        SearchingDone(e, this, bad, result, stack, exp);
        LighterMeans(b, rank, stack, exp, todo, before);
      }
      SearchingEnds(e, this, bad, result);
    }
  }

  ghost function GraphOf(all: set<Expectation>): Graph<Expectation>
    reads all`immediatePrerequisites
  {
    map e | e in all :: e.immediatePrerequisites
  }

  ghost function RetiredOf(all: set<Expectation>): set<Expectation>
    reads all`retired
  {
    set e | e in all && e.retired
  }

  ghost function UnsatisfiedOf(all: set<Expectation>): set<Expectation>
    reads all`callCount
  {
    set e | e in all && !e.IsSatisfied()
  }

  /** Satisfied without ever having been called. */
  ghost function IdleOf(all: set<Expectation>): set<Expectation>
    reads all`callCount
  {
    set e | e in all && e.IsSatisfied() && e.callCount == 0
  }

  /** The sets and the graph say what the fields say. */
  lemma Facts(all: set<Expectation>, x: Expectation)
    requires x in all || x in GraphOf(all)
    ensures x in all && GraphOf(all).Keys == all && GraphOf(all)[x] == x.immediatePrerequisites
    ensures x in RetiredOf(all) <==> x.retired
    ensures RetiredOf(all) <= all
    ensures x in UnsatisfiedOf(all) <==> !x.IsSatisfied()
    ensures x in IdleOf(all) <==> x.IsSatisfied() && x.callCount == 0
  {
  }

  lemma KnownRanks(all: set<Expectation>, rank: map<Expectation, nat>, x: Expectation)
    requires Ranked(GraphOf(all), rank) && x in all
    ensures x in rank
  {
  }
}
