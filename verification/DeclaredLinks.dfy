/** How the prerequisites of expectations mirror what their declarations name. */
module DeclaredLinks {
  import opened CallBooks
  import opened CallOrder
  import opened Expectations
  import opened MockCalls
  import opened Prerequisites

  /** The items with these numbers; a number that names nothing is left out. */
  function Pick<T>(items: seq<T>, numbers: seq<nat>): (picked: seq<T>)
    ensures |picked| == |Known(numbers, |items|)|
    ensures forall i | 0 <= i < |picked| :: picked[i] == items[Known(numbers, |items|)[i]]
  {
    var known := Known(numbers, |items|);
    seq(|known|, i requires 0 <= i < |known| => items[known[i]])
  }

  lemma PickedIsNamed<T>(items: seq<T>, numbers: seq<nat>, x: T) returns (k: nat)
    requires x in Pick(items, numbers)
    ensures k in numbers && k < |items| && items[k] == x
  {
    var i :| 0 <= i < |Pick(items, numbers)| && Pick(items, numbers)[i] == x;
    k := Known(numbers, |items|)[i];
  }

  lemma NamedIsPicked<T>(items: seq<T>, numbers: seq<nat>, k: nat)
    requires k in numbers && k < |items|
    ensures items[k] in Pick(items, numbers)
  {
    var known := Known(numbers, |items|);
    assert k in known;
    var i :| 0 <= i < |known| && known[i] == k;
    assert Pick(items, numbers)[i] == items[k];
  }

  ghost predicate Distinct<T>(items: seq<T>) {
    forall i, j | 0 <= i < j < |items| :: items[i] != items[j]
  }

  lemma PickedIffNamed<T>(items: seq<T>, numbers: seq<nat>, k: nat)
    requires Distinct(items) && k < |items|
    ensures items[k] in Pick(items, numbers) <==> k in numbers
  {
    if k in numbers {
      NamedIsPicked(items, numbers, k);
    } else if items[k] in Pick(items, numbers) {
      var j := PickedIsNamed(items, numbers, items[k]);
    }
  }

  // ---------- sequences and prerequisites ----------

  ghost predicate AllChained(sequences: seq<Sequence>, g: Graph<Expectation>)
    reads sequences
  {
    forall s | s in sequences :: s.ValidIn(g)
  }

  ghost predicate IsMember(sequences: seq<Sequence>, declared: seq<Expectation>, expects: seq<Event>, d: int, k: nat)
    reads sequences
  {
    0 <= d < |declared| && d < |expects| && k < |sequences| && Joins(expects[d], k) ==>
      declared[d] in sequences[k].members
  }

  /** Every declaration is in the sequences it names. */
  ghost predicate AllMembers(sequences: seq<Sequence>, declared: seq<Expectation>, expects: seq<Event>)
    reads sequences
  {
    forall d, k: nat :: IsMember(sequences, declared, expects, d, k)
  }

  ghost predicate IsJoined(declared: seq<Expectation>, expects: seq<Event>, x: Expectation, k: nat) {
    exists d :: 0 <= d < |declared| && d < |expects| && declared[d] == x && Joins(expects[d], k)
  }

  /** Nothing else is in a sequence. */
  ghost predicate OnlyMembers(sequences: seq<Sequence>, declared: seq<Expectation>, expects: seq<Event>)
    reads sequences
  {
    forall k, x | 0 <= k < |sequences| && x in sequences[k].members :: IsJoined(declared, expects, x, k)
  }

  /** What must follow has what it must follow among its prerequisites. */
  ghost predicate AllFollow(g: Graph<Expectation>, n: nat, declared: seq<Expectation>, expects: seq<Event>) {
    && |declared| == |expects|
    && forall late, early | MustFollow(expects, n, late, early) :: Reaches(g, declared[late], declared[early])
  }

  ghost predicate IsNamed(n: nat, declared: seq<Expectation>, expects: seq<Event>, late: int, x: Expectation) {
    exists early: nat :: MustFollow(expects, n, late, early) && early < |declared| && declared[early] == x
  }

  /** And it has nothing else among its immediate prerequisites. */
  ghost predicate OnlyFollow(g: Graph<Expectation>, n: nat, declared: seq<Expectation>, expects: seq<Event>) {
    forall late, x | 0 <= late < |declared| && declared[late] in g && x in g[declared[late]] ::
      IsNamed(n, declared, expects, late, x)
  }

  lemma {:induction false} ReachesOver<T>(g: Graph<T>, a: T, b: T, c: T, n: nat)
    requires Reaches(g, a, b) && n > 0 && c in Steps(g, b, n)
    ensures Reaches(g, a, c)
  {
    var x :| x in Steps(g, b, n - 1) && x in g && c in g[x];
    if n > 1 {
      ReachesOver(g, a, b, x, n - 1);
    } else {
      assert Steps(g, b, 0) == {b};
    }
    ReachesOn(g, a, x, c);
  }

  lemma {:induction false} FollowsReaches(g: Graph<Expectation>, n: nat, declared: seq<Expectation>,
                                          expects: seq<Event>, late: nat, early: int)
    requires AllFollow(g, n, declared, expects) && Follows(expects, n, late, early)
    ensures 0 <= early < late < |declared| && Reaches(g, declared[late], declared[early])
    decreases late
  {
    hide Reaches, MustFollow;
    FollowsEarlier(expects, n, late, early);
    if !MustFollow(expects, n, late, early) {
      var mid: nat :| mid < late && MustFollow(expects, n, late, mid) && Follows(expects, n, mid, early);
      FollowsReaches(g, n, declared, expects, mid, early);
      ReachesTransitively(g, declared[late], declared[mid], declared[early]);
    }
  }

  lemma ReachesTransitively<T>(g: Graph<T>, a: T, b: T, c: T)
    requires Reaches(g, a, b) && Reaches(g, b, c)
    ensures Reaches(g, a, c)
  {
    var n: nat :| n > 0 && c in Steps(g, b, n);
    ReachesOver(g, a, b, c, n);
  }

  lemma {:induction false} ReachesFollows(g: Graph<Expectation>, n: nat, declared: seq<Expectation>,
                                          expects: seq<Event>, late: nat, early: nat)
    requires OnlyFollow(g, n, declared, expects) && Distinct(declared) && |declared| == |expects|
    requires late < |declared| && early < |declared| && Reaches(g, declared[late], declared[early])
    ensures Follows(expects, n, late, early)
    decreases late
  {
    hide Reaches, MustFollow;
    var x := ReachesByFront(g, declared[late], declared[early]);
    assert IsNamed(n, declared, expects, late, x);
    var mid: nat :| MustFollow(expects, n, late, mid) && mid < |declared| && declared[mid] == x;
    MustFollowIsEarlier(expects, n, late, mid);
    if mid != early {
      ReachesFollows(g, n, declared, expects, mid, early);
    }
  }

  lemma MustFollowIsEarlier(expects: seq<Event>, n: nat, late: int, early: int)
    requires MustFollow(expects, n, late, early)
    ensures 0 <= early < late < |expects|
  {
  }

  /** The transitive prerequisites are exactly the declarations that must be followed. */
  lemma PrerequisitesAreDeclared(g: Graph<Expectation>, n: nat, declared: seq<Expectation>, expects: seq<Event>,
                                 late: nat, early: nat)
    requires AllFollow(g, n, declared, expects) && OnlyFollow(g, n, declared, expects) && Distinct(declared)
    requires late < |declared| && early < |declared|
    ensures Reaches(g, declared[late], declared[early]) <==> Follows(expects, n, late, early)
  {
    hide OnlyFollow, Distinct, Reaches, Follows;
    if Reaches(g, declared[late], declared[early]) {
      ReachesFollows(g, n, declared, expects, late, early);
    } else if Follows(expects, n, late, early) {
      FollowsReaches(g, n, declared, expects, late, early);
    }
  }

  // ---------- one declaration more ----------

  /** A new member of a sequence has all the earlier ones as prerequisites. */
  lemma FollowsMembers(g: Graph<Expectation>, members: seq<Expectation>, e: Expectation, early: Expectation)
    requires Chained(g, members + [e]) && early in members
    ensures Reaches(g, e, early)
  {
    var i :| 0 <= i < |members| && members[i] == early;
    LaterReachesEarlier(g, members + [e], i, |members|);
  }

  /** A sequence after a declaration: the new expectation is its last member, or it is
      as it was. */
  ghost predicate Joined(s: Sequence, members: seq<Expectation>, joins: bool, g0: Graph<Expectation>,
                         g: Graph<Expectation>, e: Expectation)
    reads s
  {
    if joins then s.ValidIn(g) && s.members == members + [e] else s.ValidIn(g0) && s.members == members
  }

  ghost predicate AllJoined(sequences: seq<Sequence>, before: seq<seq<Expectation>>, chosen: seq<Sequence>,
                            g0: Graph<Expectation>, g: Graph<Expectation>, e: Expectation)
    reads sequences
  {
    && |before| == |sequences|
    && forall k | 0 <= k < |sequences| :: Joined(sequences[k], before[k], sequences[k] in chosen, g0, g, e)
  }

  /** The prerequisites that were there stay as they were. */
  ghost predicate Grows(g0: Graph<Expectation>, g: Graph<Expectation>) {
    forall x | x in g0 :: x in g && g[x] == g0[x]
  }

  lemma ChainedStill(sequences: seq<Sequence>, before: seq<seq<Expectation>>, chosen: seq<Sequence>,
                     g0: Graph<Expectation>, g: Graph<Expectation>, e: Expectation)
    requires AllJoined(sequences, before, chosen, g0, g, e) && Grows(g0, g)
    ensures AllChained(sequences, g)
  {
    forall s | s in sequences
      ensures s.ValidIn(g)
    {
      var k :| 0 <= k < |sequences| && sequences[k] == s;
      assert Joined(sequences[k], before[k], sequences[k] in chosen, g0, g, e);
    }
  }

  lemma MembersStill(sequences: seq<Sequence>, before: seq<seq<Expectation>>, declared: seq<Expectation>,
                     expects: seq<Event>, event: Event, g0: Graph<Expectation>, g: Graph<Expectation>, e: Expectation)
    requires event.Expect? && |declared| == |expects| && Distinct(sequences)
    requires AllJoined(sequences, before, Pick(sequences, event.sequences), g0, g, e)
    requires forall d, k | 0 <= d < |declared| && 0 <= k < |sequences| && Joins(expects[d], k) ::
               declared[d] in before[k]
    ensures AllMembers(sequences, declared + [e], expects + [event])
  {
    hide Sequence.ValidIn, Pick, Distinct;
    var declared', expects' := declared + [e], expects + [event];
    forall d, k: nat
      ensures IsMember(sequences, declared', expects', d, k)
    {
      if 0 <= d < |declared'| && k < |sequences| && Joins(expects'[d], k) {
        PickedIffNamed(sequences, event.sequences, k);
        assert Joined(sequences[k], before[k], sequences[k] in Pick(sequences, event.sequences), g0, g, e);
      }
    }
  }

  lemma OnlyMembersStill(sequences: seq<Sequence>, before: seq<seq<Expectation>>, declared: seq<Expectation>,
                         expects: seq<Event>, event: Event, g0: Graph<Expectation>, g: Graph<Expectation>,
                         e: Expectation)
    requires event.Expect? && |declared| == |expects| && Distinct(sequences)
    requires AllJoined(sequences, before, Pick(sequences, event.sequences), g0, g, e)
    requires forall k, x | 0 <= k < |sequences| && x in before[k] :: IsJoined(declared, expects, x, k)
    ensures OnlyMembers(sequences, declared + [e], expects + [event])
  {
    hide Sequence.ValidIn, Pick, Distinct;
    var declared', expects' := declared + [e], expects + [event];
    forall k, x | 0 <= k < |sequences| && x in sequences[k].members
      ensures IsJoined(declared', expects', x, k)
    {
      PickedIffNamed(sequences, event.sequences, k);
      assert Joined(sequences[k], before[k], sequences[k] in Pick(sequences, event.sequences), g0, g, e);
      if x in before[k] {
        var d :| 0 <= d < |declared| && d < |expects| && declared[d] == x && Joins(expects[d], k);
        assert declared'[d] == x && Joins(expects'[d], k);
      } else {
        assert declared'[|declared|] == x && Joins(expects'[|declared|], k);
      }
    }
  }

  lemma JoinedAreChained(sequences: seq<Sequence>, before: seq<seq<Expectation>>, event: Event,
                         g0: Graph<Expectation>, g: Graph<Expectation>, e: Expectation)
    requires event.Expect? && AllJoined(sequences, before, Pick(sequences, event.sequences), g0, g, e)
    ensures forall k | 0 <= k < |sequences| && Joins(event, k) :: Chained(g, before[k] + [e])
  {
    hide Chained, Pick;
    forall k | 0 <= k < |sequences| && Joins(event, k)
      ensures Chained(g, before[k] + [e])
    {
      NamedIsPicked(sequences, event.sequences, k);
      assert Joined(sequences[k], before[k], sequences[k] in Pick(sequences, event.sequences), g0, g, e);
    }
  }

  lemma FollowStill(g0: Graph<Expectation>, g: Graph<Expectation>, n: nat, before: seq<seq<Expectation>>,
                    declared: seq<Expectation>, expects: seq<Event>, event: Event, e: Expectation)
    requires AllFollow(g0, n, declared, expects) && Closed(g0) && event.Expect? && |before| == n
    requires forall x | x in declared :: x in g0
    requires Grows(g0, g)
    requires e in g && forall x | x in Pick(declared, event.after) :: x in g[e]
    requires forall k | 0 <= k < n && Joins(event, k) :: Chained(g, before[k] + [e])
    requires forall d, k | 0 <= d < |declared| && 0 <= k < n && Joins(expects[d], k) :: declared[d] in before[k]
    ensures AllFollow(g, n, declared + [e], expects + [event])
  {
    hide Reaches, Closed, Chained;
    var declared', expects' := declared + [e], expects + [event];
    forall late, early | MustFollow(expects', n, late, early)
      ensures Reaches(g, declared'[late], declared'[early])
    {
      if late < |expects| {
        assert MustFollow(expects, n, late, early);
        ReachesInExtension(g0, g, declared[late], declared[early]);
      } else if early in event.after {
        NamedIsPicked(declared, event.after, early);
        ReachesDirectly(g, e, declared[early]);
      } else {
        var k :| 0 <= k < n && Joins(expects'[early], k) && Joins(event, k);
        FollowsMembers(g, before[k], e, declared[early]);
      }
    }
  }

  /** It was in a sequence that the declaration joins. */
  ghost predicate IsMemberBefore(before: seq<seq<Expectation>>, event: Event, x: Expectation) {
    exists k :: 0 <= k < |before| && Joins(event, k) && x in before[k]
  }

  lemma LastsAreMembers(sequences: seq<Sequence>, before: seq<seq<Expectation>>, g: Graph<Expectation>, event: Event)
    requires event.Expect? && |before| == |sequences|
    requires forall k | 0 <= k < |sequences| :: sequences[k].ValidIn(g) && sequences[k].members == before[k]
    ensures forall x | x in LastOf(Lasts(Pick(sequences, event.sequences))) :: IsMemberBefore(before, event, x)
  {
    var chosen := Pick(sequences, event.sequences);
    var lasts := Lasts(chosen);
    hide Pick, Chained;
    forall x | x in LastOf(lasts)
      ensures IsMemberBefore(before, event, x)
    {
      var i :| 0 <= i < |lasts| && lasts[i] == x;
      var k := PickedIsNamed(sequences, event.sequences, chosen[i]);
      assert sequences[k].members == before[k] && Joins(event, k);
    }
  }

  /** The new expectation has as prerequisites what it must follow immediately. */
  lemma OnlyFollowStill(g0: Graph<Expectation>, g: Graph<Expectation>, n: nat, before: seq<seq<Expectation>>,
                        declared: seq<Expectation>, expects: seq<Event>, event: Event, e: Expectation)
    requires OnlyFollow(g0, n, declared, expects) && event.Expect? && |before| == n && |declared| == |expects|
    requires forall e | e in expects :: e.Expect?
    requires Grows(g0, g) && forall x | x in declared :: x in g0
    requires e in g
    requires forall x | x in g[e] :: x in Pick(declared, event.after) || IsMemberBefore(before, event, x)
    requires forall k, x | 0 <= k < n && x in before[k] :: IsJoined(declared, expects, x, k)
    ensures OnlyFollow(g, n, declared + [e], expects + [event])
  {
    hide Pick;
    var declared', expects' := declared + [e], expects + [event];
    forall late, x | 0 <= late < |declared'| && declared'[late] in g && x in g[declared'[late]]
      ensures IsNamed(n, declared', expects', late, x)
    {
      if late < |declared| {
        assert IsNamed(n, declared, expects, late, x);
        var early: nat :| MustFollow(expects, n, late, early) && early < |declared| && declared[early] == x;
        assert MustFollow(expects', n, late, early) && declared'[early] == x;
      } else if x in Pick(declared, event.after) {
        var early := PickedIsNamed(declared, event.after, x);
        assert MustFollow(expects', n, late, early) && declared'[early] == x;
      } else {
        var k :| 0 <= k < n && Joins(event, k) && x in before[k];
        assert IsJoined(declared, expects, x, k);
        var early: nat :| early < |declared| && early < |expects| && declared[early] == x && Joins(expects[early], k);
        assert Joins(expects'[early], k) && Joins(expects'[late], k);
        assert MustFollow(expects', n, late, early) && declared'[early] == x;
      }
    }
  }
}
