/** What the book of a run promises about how often an expectation is called, in terms
    of the bounds it was declared with. */
module CallBounds {
  import opened CallBooks
  import opened Options

  /** How many calls `d` accepted (took beyond its upper bound). */
  function Accepts(outcomes: seq<Outcome>, d: nat): nat {
    if outcomes == [] then 0
    else Accepts(outcomes[..|outcomes| - 1], d) + if outcomes[|outcomes| - 1] == Accepted(d) then 1 else 0
  }

  function Excesses(outcomes: seq<Outcome>, d: nat): nat {
    if outcomes == [] then 0
    else Excesses(outcomes[..|outcomes| - 1], d) + if outcomes[|outcomes| - 1] == Excessive(d) then 1 else 0
  }

  lemma OneMoreOutcome(outcomes: seq<Outcome>, outcome: Outcome, d: nat)
    ensures Accepts(outcomes + [outcome], d) == Accepts(outcomes, d) + (if outcome == Accepted(d) then 1 else 0)
    ensures Excesses(outcomes + [outcome], d) == Excesses(outcomes, d) + if outcome == Excessive(d) then 1 else 0
  {
    assert (outcomes + [outcome])[..|outcomes|] == outcomes;
  }

  /** Only declared expectations take calls. */
  ghost predicate TakersKnown(outcomes: seq<Outcome>, bound: nat) {
    forall i | 0 <= i < |outcomes| && !outcomes[i].Unexpected? :: outcomes[i].taker < bound
  }

  lemma {:induction false} UnknownTakeNone(outcomes: seq<Outcome>, bound: nat, d: nat)
    requires TakersKnown(outcomes, bound) && bound <= d
    ensures Accepts(outcomes, d) == 0 && Excesses(outcomes, d) == 0
  {
    if outcomes != [] {
      UnknownTakeNone(outcomes[..|outcomes| - 1], bound, d);
    }
  }

  /** `d` is retired by its last allowed call, if it asked for that, or by a call that
      somebody who must follow it accepted. */
  ghost predicate HasToRetire(expects: seq<Event>, n: nat, outcomes: seq<Outcome>, d: nat)
    requires d < |expects| && expects[d].Expect?
  {
    || (expects[d].retiresOnSaturation && 0 < Accepts(outcomes, d) == expects[d].cardinality.max)
    || exists x: nat :: Follows(expects, n, x, d) && Accepts(outcomes, x) > 0
  }

  /** At most the upper bound is accepted, what is beyond comes when it is reached, and
      the entry holds both together. */
  ghost predicate InBounds(expects: seq<Event>, n: nat, book: Book, d: nat)
    requires d < |expects| == |book.entries| && expects[d].Expect?
  {
    var a, e := Accepts(book.outcomes, d), Excesses(book.outcomes, d);
    && a <= expects[d].cardinality.max
    && (e > 0 ==> a == expects[d].cardinality.max)
    && book.entries[d].calls == a + e
    && (book.entries[d].retired <==> HasToRetire(expects, n, book.outcomes, d))
  }

  ghost predicate AllInBounds(expects: seq<Event>, n: nat, book: Book) {
    && |expects| == |book.entries| && (forall event | event in expects :: event.Expect?)
    && TakersKnown(book.outcomes, |expects|)
    && forall d: nat | d < |expects| :: InBounds(expects, n, book, d)
  }

  /** A call is accepted while the bound is not reached, and excessive afterwards. */
  ghost predicate TurnOf(expects: seq<Event>, before: seq<Outcome>, outcome: Outcome) {
    match outcome
    case Unexpected => true
    case Accepted(d) => d < |expects| && expects[d].Expect? && Accepts(before, d) < expects[d].cardinality.max
    case Excessive(d) => d < |expects| && expects[d].Expect? && Accepts(before, d) == expects[d].cardinality.max
  }

  ghost predicate InTurn(expects: seq<Event>, outcomes: seq<Outcome>) {
    forall i | 0 <= i < |outcomes| :: TurnOf(expects, outcomes[..i], outcomes[i])
  }

  lemma InTurnGrows(expects: seq<Event>, outcomes: seq<Outcome>, outcome: Outcome)
    requires InTurn(expects, outcomes) && TurnOf(expects, outcomes, outcome)
    ensures InTurn(expects, outcomes + [outcome])
  {
    hide TurnOf;
    var more := outcomes + [outcome];
    forall i | 0 <= i < |more|
      ensures TurnOf(expects, more[..i], more[i])
    {
      assert more[..i] == outcomes[..i];
      assert outcomes[..|outcomes|] == outcomes;
    }
  }

  lemma InTurnStill(expects: seq<Event>, event: Event, outcomes: seq<Outcome>)
    requires InTurn(expects, outcomes)
    ensures InTurn(expects + [event], outcomes)
  {
    forall i | 0 <= i < |outcomes|
      ensures TurnOf(expects + [event], outcomes[..i], outcomes[i])
    {
      assert TurnOf(expects, outcomes[..i], outcomes[i]);
    }
  }

  lemma BoundsAfterDeclaration(expects: seq<Event>, event: Event, n: nat, book: Book)
    requires AllInBounds(expects, n, book) && event.Expect?
    ensures AllInBounds(expects + [event], n, Book(book.entries + [Entry(0, false)], book.outcomes))
  {
    var expects', book' := expects + [event], Book(book.entries + [Entry(0, false)], book.outcomes);
    hide Follows, Accepts, Excesses;
    forall d: nat | d < |expects'|
      ensures InBounds(expects', n, book', d)
    {
      forall x: nat
        ensures Follows(expects', n, x, d) && Accepts(book.outcomes, x) > 0
                <==> d < |expects| && Follows(expects, n, x, d) && Accepts(book.outcomes, x) > 0
      {
        StillFollowed(expects, event, n, book.outcomes, x, d);
      }
      if d < |expects| {
        assert InBounds(expects, n, book, d);
      } else {
        UnknownTakeNone(book.outcomes, |expects|, d);
      }
    }
  }

  lemma StillFollowed(expects: seq<Event>, event: Event, n: nat, outcomes: seq<Outcome>, x: nat, d: nat)
    requires TakersKnown(outcomes, |expects|)
    ensures Follows(expects + [event], n, x, d) && Accepts(outcomes, x) > 0
            <==> d < |expects| && Follows(expects, n, x, d) && Accepts(outcomes, x) > 0
  {
    if x < |expects| {
      FollowsStill(expects, event, n, x, d);
      if Follows(expects, n, x, d) {
        FollowsEarlier(expects, n, x, d);
      }
    } else {
      UnknownTakeNone(outcomes, |expects|, x);
    }
  }

  /** An excessive call changes only its count. */
  lemma BoundsAfterExcess(expects: seq<Event>, n: nat, book: Book, h: nat)
    requires AllInBounds(expects, n, book) && h < |expects|
    requires CallBooks.IsSaturated(expects, h, book.entries[h].calls)
    ensures AllInBounds(expects, n, Book(book.entries[h := Entry(book.entries[h].calls + 1, book.entries[h].retired)],
                                         book.outcomes + [Excessive(h)]))
    ensures TurnOf(expects, book.outcomes, Excessive(h))
  {
    var outcomes' := book.outcomes + [Excessive(h)];
    var book' := Book(book.entries[h := Entry(book.entries[h].calls + 1, book.entries[h].retired)], outcomes');
    hide Follows, Accepts, Excesses;
    assert InBounds(expects, n, book, h);
    forall d: nat
      ensures Accepts(outcomes', d) == Accepts(book.outcomes, d)
      ensures Excesses(outcomes', d) == Excesses(book.outcomes, d) + if d == h then 1 else 0
    {
      OneMoreOutcome(book.outcomes, Excessive(h), d);
    }
    forall d: nat | d < |expects|
      ensures InBounds(expects, n, book', d)
    {
      assert InBounds(expects, n, book, d);
    }
  }

  /** An accepted call finds its taker below the bound. */
  lemma BoundsAfterAccepted(expects: seq<Event>, n: nat, book: Book, h: nat)
    requires AllInBounds(expects, n, book) && h < |expects|
    requires !CallBooks.IsSaturated(expects, h, book.entries[h].calls)
    ensures AllInBounds(expects, n, Book(AfterAccepted(expects, n, book.entries, h), book.outcomes + [Accepted(h)]))
    ensures TurnOf(expects, book.outcomes, Accepted(h))
  {
    var outcomes' := book.outcomes + [Accepted(h)];
    var book' := Book(AfterAccepted(expects, n, book.entries, h), outcomes');
    hide Follows, Accepts, Excesses;
    assert InBounds(expects, n, book, h);
    forall d: nat
      ensures Accepts(outcomes', d) == Accepts(book.outcomes, d) + if d == h then 1 else 0
      ensures Excesses(outcomes', d) == Excesses(book.outcomes, d)
    {
      OneMoreOutcome(book.outcomes, Accepted(h), d);
    }
    forall d: nat | d < |expects|
      ensures InBounds(expects, n, book', d)
    {
      assert InBounds(expects, n, book, d);
    }
  }

  lemma BoundsAfterCall(expects: seq<Event>, n: nat, book: Book, event: Event)
    requires AllInBounds(expects, n, book) && InTurn(expects, book.outcomes) && event.Call?
    ensures var after := AfterCall(expects, n, book, event);
            AllInBounds(expects, n, after) && InTurn(expects, after.outcomes)
  {
    var taker := Newest(expects, n, book.entries, Known(event.candidates, |expects|), event.matching);
    CallIsTaken(expects, n, book, event, taker);
    hide AfterCall, Newest, Known, InBounds, InTurn, AfterAccepted;
    if taker == None {
      assert AllInBounds(expects, n, Book(book.entries, book.outcomes + [Unexpected])) by {
        UnexpectedIsFree(expects, n, book);
      }
      InTurnGrows(expects, book.outcomes, Unexpected);
    } else if CallBooks.IsSaturated(expects, taker.value, book.entries[taker.value].calls) {
      BoundsAfterExcess(expects, n, book, taker.value);
      InTurnGrows(expects, book.outcomes, Excessive(taker.value));
    } else {
      BoundsAfterAccepted(expects, n, book, taker.value);
      InTurnGrows(expects, book.outcomes, Accepted(taker.value));
    }
  }

  lemma UnexpectedIsFree(expects: seq<Event>, n: nat, book: Book)
    requires AllInBounds(expects, n, book)
    ensures AllInBounds(expects, n, Book(book.entries, book.outcomes + [Unexpected]))
  {
    var book' := Book(book.entries, book.outcomes + [Unexpected]);
    hide Follows, Accepts, Excesses;
    forall d: nat
      ensures Accepts(book'.outcomes, d) == Accepts(book.outcomes, d)
      ensures Excesses(book'.outcomes, d) == Excesses(book.outcomes, d)
    {
      OneMoreOutcome(book.outcomes, Unexpected, d);
    }
    forall d: nat | d < |expects|
      ensures InBounds(expects, n, book', d)
    {
      assert InBounds(expects, n, book, d);
    }
  }

  /** In every run the bounds are kept, for every expectation. */
  lemma {:induction false} ReplayIsInBounds(events: seq<Event>, n: nat)
    ensures AllInBounds(Declarations(events), n, Replay(events, n))
    ensures InTurn(Declarations(events), Replay(events, n).outcomes)
  {
    hide AllInBounds, InTurn, AfterCall;
    if events == [] {
      NothingBound(n);
    } else {
      var m := |events| - 1;
      ReplayIsInBounds(events[..m], n);
      assert events == events[..m] + [events[m]];
      DeclarationsGrow(events[..m], events[m]);
      var expects, book := Declarations(events[..m]), Replay(events[..m], n);
      if events[m].Expect? {
        BoundsAfterDeclaration(expects, events[m], n, book);
        InTurnStill(expects, events[m], book.outcomes);
      } else {
        BoundsAfterCall(expects, n, book, events[m]);
      }
    }
  }

  lemma NothingBound(n: nat)
    ensures AllInBounds([], n, Book([], [])) && InTurn([], [])
  {
  }

  /** An expectation counts as satisfied exactly if it accepted enough calls and was not
      called too often. */
  lemma SatisfiedMeansEnough(events: seq<Event>, n: nat, d: nat)
    requires d < |Declarations(events)|
    ensures var expects, book := Declarations(events), Replay(events, n);
            CallBooks.IsSatisfied(expects, book.entries, d)
            <==> Accepts(book.outcomes, d) >= expects[d].cardinality.min && Excesses(book.outcomes, d) == 0
  {
    ReplayIsInBounds(events, n);
    hide HasToRetire, Accepts, Excesses, InTurn, Replay, Declarations;
    assert InBounds(Declarations(events), n, Replay(events, n), d);
  }
}
