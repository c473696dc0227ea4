/** Whole runs: declaring expectations, and handling calls. */
module MockCalls {
  import opened Prerequisites
  import opened CallOrder
  import opened Expectations

  class Sequence {
    var last: Expectation?
    ghost var members: seq<Expectation>

    /** The members are chained by prerequisites, and `last` is the last of them. */
    ghost predicate ValidIn(g: Graph<Expectation>)
      reads this
    {
      && Chained(g, members)
      && (last == null <==> members == [])
      && (last != null ==> last == members[|members| - 1])
    }

    ghost predicate Valid(all: set<Expectation>)
      reads this, all`immediatePrerequisites
    {
      ValidIn(GraphOf(all))
    }

    constructor ()
      ensures last == null && members == []
    {
      last := null;
      members := [];
    }

    /** Makes the last member a prerequisite of the expectation, and that the last. */
    method AddExpectation(e: Expectation)
      modifies this, e`immediatePrerequisites
      ensures last == e
      ensures e.immediatePrerequisites
              == old(e.immediatePrerequisites) + if old(last) == e || old(last) == null then {} else {old(last)}
      ensures members == if old(last) == e then old(members) else old(members) + [e]
    {
      if last != e {
        if last != null {
          e.immediatePrerequisites := e.immediatePrerequisites + {last};
        }
        last := e;
        members := members + [e];
      }
    }
  }

  /** All expectations of a program, with the calls they have accepted so far. */
  class Mocks {
    ghost var all: set<Expectation>
    ghost var rank: map<Expectation, nat>
    ghost var count: nat
    ghost var used: set<Expectation>
    ghost var log: seq<Expectation>

    ghost predicate Valid()
      reads this, all
    {
      && RunOk(GraphOf(all), rank, RetiredOf(all), used, UnsatisfiedOf(all), IdleOf(all))
      && InOrder(GraphOf(all), used, log)
      && (forall e | e in all :: e.cardinality.Valid())
      && forall e | e in all :: e in rank && rank[e] < count
    }

    constructor ()
      ensures Valid() && all == {} && log == []
    {
      all, rank, count, used, log := {}, map[], 0, {}, [];
    }

    /** EXPECT_CALL(...).InSequence(sequences).After(after): a new expectation, whose
        prerequisites are `after` and the last members of the sequences. */
    method ExpectCall(cardinality: Cardinality, retiresOnSaturation: bool,
                      sequences: seq<Sequence>, after: set<Expectation>) returns (e: Expectation)
      requires Valid() && cardinality.Valid() && after <= all
      requires forall s | s in sequences :: s.Valid(all)
      modifies this, sequences
      ensures Valid() && fresh(e) && all == old(all) + {e} && log == old(log)
      ensures e.cardinality == cardinality && e.retiresOnSaturation == retiresOnSaturation
      ensures e.callCount == 0 && !e.retired
      ensures e.immediatePrerequisites == after + LastOf(old(Lasts(sequences)))
      ensures forall s | s in sequences :: s.Valid(all) && s.members == old(s.members) + [e]
    {
      hide *;
      ghost var before := Members(sequences, all);
      e := new Expectation(cardinality, retiresOnSaturation);
      AddPrerequisites(e, sequences, after, before);
      SameGraph(all);
      Joined(sequences, all, all + {e}, e, before);
      Declare(e);
    }

    /** The ghost half of a declaration. */
    ghost method Declare(e: Expectation)
      requires Valid() && e !in all && e.cardinality.Valid()
      requires e.immediatePrerequisites <= all && e.callCount == 0 && !e.retired
      modifies this
      ensures Valid() && all == old(all) + {e} && log == old(log)
    {
      hide RunOk, InOrder, GraphOf, RetiredOf, UnsatisfiedOf, IdleOf;
      NewExpectation(all, rank, all + {e}, rank[e := count], count, used, log, e);
      all, rank, count := all + {e}, rank[e := count], count + 1;
    }

    /** The expectation is active and nothing below it is unsatisfied. */
    ghost predicate CanHandle(e: Expectation)
      requires e in all
      reads this, all
    {
      !e.retired && forall x | x in UnsatisfiedOf(all) :: !Reaches(GraphOf(all), e, x)
    }

    /** The newest matching expectation that can handle a call. */
    method FindMatchingExpectation(candidates: seq<Expectation>, matching: set<Expectation>) returns (i: int)
      requires Valid() && forall e | e in candidates :: e in all
      ensures -1 <= i < |candidates|
      ensures i >= 0 ==> candidates[i] in matching && CanHandle(candidates[i])
      ensures forall k | i < k < |candidates| && candidates[k] in matching :: !CanHandle(candidates[k])
    {
      i := |candidates| - 1;
      while i >= 0
        invariant -1 <= i < |candidates|
        invariant forall k | i < k < |candidates| && candidates[k] in matching :: !CanHandle(candidates[k])
      {
        var e := candidates[i];
        if !e.retired {
          var satisfied := e.AllPrerequisitesAreSatisfied(all, rank);
          if satisfied && e in matching {
            return;
          }
        }
        i := i - 1;
      }
    }

    /** A call that the expectation handles. Within its cardinality the call is
        accepted and retires all prerequisites, and perhaps the expectation itself;
        beyond it, the call is only counted. */
    method GetActionForArguments(e: Expectation) returns (excessive: bool)
      requires Valid() && e in all && CanHandle(e)
      modifies this, all
      ensures Valid() && all == old(all) && GraphOf(all) == old(GraphOf(all))
      ensures excessive <==> old(e.IsSaturated())
      ensures e.callCount == old(e.callCount) + 1
      ensures forall x | x in all && x != e :: x.callCount == old(x.callCount)
      ensures log == if excessive then old(log) else old(log) + [e]
      ensures forall x | x in all ::
                x in RetiredOf(all) <==>
                  x in old(RetiredOf(all))
                  || (!excessive && Reaches(GraphOf(all), e, x))
                  || (!excessive && x == e && e.retiresOnSaturation && e.IsSaturated())
    {
      excessive := e.IsSaturated();
      if excessive {
        CountExcessive(e);
      } else {
        Accept(e);
      }
    }

    /** A call of a mock function: the newest of its expectations that can handle the
        call does; without one the call is unexpected and changes nothing. */
    method HandleCall(candidates: seq<Expectation>, matching: set<Expectation>)
        returns (handler: Expectation?, excessive: bool)
      requires Valid() && forall e | e in candidates :: e in all
      modifies this, all
      ensures Valid() && all == old(all) && GraphOf(all) == old(GraphOf(all))
      ensures handler == null <==> forall e | e in candidates && e in matching :: !old(CanHandle(e))
      ensures handler == null ==> log == old(log) && forall e | e in all :: unchanged(e)
      ensures handler != null ==>
                && handler in candidates && handler in matching && old(CanHandle(handler))
                && log == if excessive then old(log) else old(log) + [handler]
      ensures handler != null ==>
                exists k | 0 <= k < |candidates| ::
                  && candidates[k] == handler
                  && forall j | k < j < |candidates| && candidates[j] in matching :: !old(CanHandle(candidates[j]))
      ensures handler != null ==>
                && (excessive <==> old(handler.IsSaturated()))
                && handler.callCount == old(handler.callCount) + 1
                && (forall x | x in all && x != handler :: x.callCount == old(x.callCount))
                && forall x | x in all ::
                     x in RetiredOf(all) <==>
                       x in old(RetiredOf(all))
                       || (!excessive && Reaches(GraphOf(all), handler, x))
                       || (!excessive && x == handler && x.retiresOnSaturation && x.IsSaturated())
    {
      var i := FindMatchingExpectation(candidates, matching);
      if i == -1 {
        return null, false;
      }
      handler := candidates[i];
      hide RunOk, InOrder, GraphOf, RetiredOf, UnsatisfiedOf, IdleOf, Reaches;
      assert CanHandle(handler);
      excessive := GetActionForArguments(handler);
    }

    method CountExcessive(e: Expectation)
      requires Valid() && e in all && !e.retired && e.IsSaturated()
      modifies e`callCount
      ensures Valid() && e.callCount == old(e.callCount) + 1
    {
      ghost var g, retired0, bad0, idle0 := GraphOf(all), RetiredOf(all), UnsatisfiedOf(all), IdleOf(all);
      assert e in g && e !in retired0;
      e.IncrementCallCount();
      e.OthersUnchanged(all);
      assert e in UnsatisfiedOf(all);
      hide RunOk, InOrder, GraphOf, RetiredOf, UnsatisfiedOf, IdleOf;
      Exceeded(g, rank, retired0, used, bad0, idle0, e, UnsatisfiedOf(all), IdleOf(all));
    }

    method Accept(e: Expectation)
      requires Valid() && e in all && CanHandle(e) && !e.IsSaturated()
      modifies this, all
      ensures Valid() && all == old(all) && GraphOf(all) == old(GraphOf(all))
      ensures e.callCount == old(e.callCount) + 1 && log == old(log) + [e]
      ensures forall x | x in all && x != e :: x.callCount == old(x.callCount)
      ensures forall x | x in all ::
                x in RetiredOf(all) <==>
                  x in old(RetiredOf(all)) || Reaches(GraphOf(all), e, x)
                  || (x == e && e.retiresOnSaturation && e.IsSaturated())
    {
      ghost var g, retired0, bad0, idle0 := GraphOf(all), RetiredOf(all), UnsatisfiedOf(all), IdleOf(all);
      Facts(all, e);
      WhatRunsKeep(g, rank, retired0, used, bad0, idle0);
      hide RunOk, InOrder, GraphOf, RetiredOf, UnsatisfiedOf, IdleOf, Reaches, Closed, Downward, Ranked;
      CountAndRetire(e, all);
      ghost var retired1, bad1, idle1 := RetiredOf(all), UnsatisfiedOf(all), IdleOf(all);
      Facts(all, e);
      Accepted(g, rank, retired0, used, bad0, idle0, log, e, retired1, bad1, idle1);
      Record(e);
    }

    /** The ghost half of an accepted call. */
    ghost method Record(e: Expectation)
      requires RunOk(GraphOf(all), rank, RetiredOf(all), used + {e}, UnsatisfiedOf(all), IdleOf(all))
      requires InOrder(GraphOf(all), used + {e}, log + [e])
      requires forall x | x in all :: x.cardinality.Valid() && x in rank && rank[x] < count
      modifies this
      ensures Valid() && all == old(all) && log == old(log) + [e]
      ensures GraphOf(all) == old(GraphOf(all)) && RetiredOf(all) == old(RetiredOf(all))
    {
      hide RunOk, InOrder, GraphOf, RetiredOf, UnsatisfiedOf, IdleOf;
      used, log := used + {e}, log + [e];
      SameStates(all);
    }

    static method CountAndRetire(e: Expectation, ghost all: set<Expectation>)
      requires e in all && Closed(GraphOf(all)) && Downward(GraphOf(all), RetiredOf(all))
      modifies all
      ensures GraphOf(all) == old(GraphOf(all)) && Downward(GraphOf(all), RetiredOf(all))
      ensures e.callCount == old(e.callCount) + 1
      ensures forall x | x in all && x != e :: x.callCount == old(x.callCount)
      ensures UnsatisfiedOf(all) <= all
      ensures forall x | x in all && x != e ::
                && (x in UnsatisfiedOf(all) <==> x in old(UnsatisfiedOf(all)))
                && (x in IdleOf(all) <==> x in old(IdleOf(all)))
      ensures forall x | x in all ::
                x in RetiredOf(all) <==>
                  x in old(RetiredOf(all)) || Reaches(GraphOf(all), e, x)
                  || (x == e && e.retiresOnSaturation && e.IsSaturated())
    {
      hide RetiredOf, Reaches, Closed, Downward;
      e.IncrementCallCount();
      e.OthersUnchanged(all);
      e.RetireAllPreRequisites(all);
      if e.retiresOnSaturation && e.IsSaturated() {
        SelfRetires(GraphOf(all), RetiredOf(all), e);
        e.Retire(all);
      }
    }

    lemma WhatRunsKeep(g: Graph<Expectation>, rank: map<Expectation, nat>, retired: set<Expectation>,
                       used: set<Expectation>, bad: set<Expectation>, idle: set<Expectation>)
      requires RunOk(g, rank, retired, used, bad, idle)
      ensures Closed(g) && Ranked(g, rank) && Downward(g, retired)
    {
    }

    /** The .InSequence() and .After() clauses. */
    static method AddPrerequisites(e: Expectation, sequences: seq<Sequence>, after: set<Expectation>,
                                   ghost before: map<Sequence, seq<Expectation>>)
      requires e.immediatePrerequisites == {}
      requires forall s | s in sequences :: s.last != e && s in before && s.members == before[s]
      requires forall s | s in sequences :: before[s] != [] ==> s.last == Last(before[s])
      modifies sequences, e`immediatePrerequisites
      ensures e.immediatePrerequisites == after + LastOf(old(Lasts(sequences)))
      ensures forall s | s in sequences :: s.last == e && s.members == before[s] + [e]
      ensures forall s | s in sequences :: before[s] != [] ==> Last(before[s]) in e.immediatePrerequisites
    {
      hide LastOf;
      ghost var lasts := Lasts(sequences);
      LastOfGrows([], null);
      var i := 0;
      while i < |sequences|
        invariant 0 <= i <= |sequences|
        invariant forall s | s in sequences[..i] :: s.last == e && s.members == before[s] + [e]
        invariant forall s | s in sequences && s !in sequences[..i] :: s.last == old(s.last) && s.members == before[s]
        invariant e.immediatePrerequisites == LastOf(lasts[..i])
      {
        assert sequences[..i + 1] == sequences[..i] + [sequences[i]];
        assert lasts[..i + 1] == lasts[..i] + [lasts[i]];
        LastOfGrows(lasts[..i], lasts[i]);
        if sequences[i] in sequences[..i] {
          var k :| 0 <= k < i && sequences[k] == sequences[i];
          assert lasts[..i][k] == lasts[i];
        }
        sequences[i].AddExpectation(e);
        i := i + 1;
      }
      assert sequences[..i] == sequences && lasts[..i] == lasts;
      e.immediatePrerequisites := e.immediatePrerequisites + after;
      forall s | s in sequences && before[s] != []
        ensures Last(before[s]) in e.immediatePrerequisites
      {
        var k :| 0 <= k < |sequences| && sequences[k] == s;
        assert lasts[k] == Last(before[s]);
        LastOfHas(lasts, k);
      }
    }
  }

  ghost function Last<T>(s: seq<T>): T
    requires s != []
  {
    s[|s| - 1]
  }

  twostate lemma SameStates(all: set<Expectation>)
    requires forall x | x in all ::
               && x.immediatePrerequisites == old(x.immediatePrerequisites)
               && x.callCount == old(x.callCount) && x.retired == old(x.retired)
    ensures GraphOf(all) == old(GraphOf(all)) && RetiredOf(all) == old(RetiredOf(all))
    ensures UnsatisfiedOf(all) == old(UnsatisfiedOf(all)) && IdleOf(all) == old(IdleOf(all))
  {
  }

  twostate lemma SameGraph(all: set<Expectation>)
    requires forall x | x in all :: x.immediatePrerequisites == old(x.immediatePrerequisites)
    ensures GraphOf(all) == old(GraphOf(all))
  {
  }

  lemma Joined(sequences: seq<Sequence>, all0: set<Expectation>, all: set<Expectation>, e: Expectation,
               before: map<Sequence, seq<Expectation>>)
    requires e !in all0 && all == all0 + {e}
    requires forall s | s in sequences :: s in before && s.last == e && s.members == before[s] + [e]
    requires forall s | s in sequences :: Chained(GraphOf(all0), before[s])
    requires forall s | s in sequences :: before[s] != [] ==> Last(before[s]) in e.immediatePrerequisites
    ensures forall s | s in sequences :: s.Valid(all)
  {
    hide Chained, GraphOf;
    forall s | s in sequences
      ensures s.Valid(all)
    {
      ChainGrows(all0, all, e, before[s]);
    }
  }

  /** The last members when the clauses are evaluated. */
  ghost function Lasts(sequences: seq<Sequence>): (r: seq<Expectation?>)
    reads sequences
    ensures |r| == |sequences|
  {
    seq(|sequences|, i requires 0 <= i < |sequences| reads sequences => sequences[i].last)
  }

  ghost function LastOf(lasts: seq<Expectation?>): set<Expectation> {
    set e: Expectation | e in lasts
  }

  lemma LastOfGrows(lasts: seq<Expectation?>, last: Expectation?)
    ensures LastOf([]) == {}
    ensures LastOf(lasts + [last]) == LastOf(lasts) + if last == null then {} else {last}
    ensures last in lasts ==> LastOf(lasts + [last]) == LastOf(lasts)
  {
  }

  lemma LastOfHas(lasts: seq<Expectation?>, k: nat)
    requires k < |lasts| && lasts[k] != null
    ensures lasts[k] in LastOf(lasts)
  {
  }

  /** The members of the sequences as they stand. */
  lemma Members(sequences: seq<Sequence>, all: set<Expectation>) returns (before: map<Sequence, seq<Expectation>>)
    requires forall s | s in sequences :: s.Valid(all)
    ensures LastOf(Lasts(sequences)) <= all
    ensures forall s | s in sequences :: s in before && before[s] == s.members
    ensures forall s | s in sequences :: Chained(GraphOf(all), before[s])
    ensures forall s | s in sequences :: before[s] != [] ==> s.last == Last(before[s])
    ensures forall s | s in sequences && s.last != null :: s.last in all
  {
    before := map s | s in sequences :: s.members;
    forall e | e in LastOf(Lasts(sequences))
      ensures e in all
    {
      var i :| 0 <= i < |sequences| && Lasts(sequences)[i] == e;
      assert sequences[i] in sequences && sequences[i].last == e;
    }
  }

  /** Declaring an expectation keeps the invariants of the run. */
  lemma NewExpectation(all0: set<Expectation>, rank0: map<Expectation, nat>, all: set<Expectation>,
                       rank: map<Expectation, nat>, n: nat, used: set<Expectation>, log: seq<Expectation>,
                       e: Expectation)
    requires RunOk(GraphOf(all0), rank0, RetiredOf(all0), used, UnsatisfiedOf(all0), IdleOf(all0))
    requires InOrder(GraphOf(all0), used, log)
    requires forall x | x in all0 :: x in rank0 && rank0[x] < n
    requires e !in all0 && all == all0 + {e} && rank == rank0[e := n]
    requires e.immediatePrerequisites <= all0 && e.callCount == 0 && !e.retired
    ensures RunOk(GraphOf(all), rank, RetiredOf(all), used, UnsatisfiedOf(all), IdleOf(all))
    ensures InOrder(GraphOf(all), used, log)
    ensures forall x | x in all :: x in rank && rank[x] < n + 1
  {
    hide RunOk, InOrder, Reaches, Closed, Ranked, Downward;
    var g, g' := GraphOf(all0), GraphOf(all);
    assert RetiredOf(all) == RetiredOf(all0);
    assert Extends(g, g', rank0, rank, e);
    Declared(g, rank0, RetiredOf(all0), used, UnsatisfiedOf(all0), IdleOf(all0), log, g', rank, e,
             UnsatisfiedOf(all), IdleOf(all));
  }

  lemma ChainGrows(all0: set<Expectation>, all: set<Expectation>, e: Expectation, members: seq<Expectation>)
    requires Chained(GraphOf(all0), members) && e !in all0 && all == all0 + {e}
    requires members != [] ==> members[|members| - 1] in e.immediatePrerequisites
    ensures Chained(GraphOf(all), members + [e])
  {
  }
}
