/** What a run of declarations and calls comes to, told by the numbers of the
    declarations alone: who must follow whom, and who takes each call. */
module CallBooks {
  import opened Expectations
  import opened Options

  /** EXPECT_CALL with the sequences and the earlier expectations its clauses name, or
      a call, with the expectations of its function and those that match it. All are
      numbered as they are declared. */
  datatype Event =
    | Expect(cardinality: Cardinality, retiresOnSaturation: bool, sequences: seq<nat>, after: seq<nat>)
    | Call(candidates: seq<nat>, matching: seq<nat>)

  /** The numbers that name something. */
  function Known(numbers: seq<nat>, bound: nat): (known: seq<nat>)
    ensures forall k :: k in known <==> k in numbers && k < bound
    ensures forall i | 0 <= i < |known| :: known[i] < bound
  {
    if numbers == [] then []
    else (if numbers[0] < bound then [numbers[0]] else []) + Known(numbers[1..], bound)
  }

  /** The declarations of a run. */
  function Declarations(events: seq<Event>): (expects: seq<Event>)
    ensures forall e | e in expects :: e.Expect?
  {
    if events == [] then []
    else
      var n := |events| - 1;
      Declarations(events[..n]) + if events[n].Expect? then [events[n]] else []
  }

  lemma DeclarationsGrow(events: seq<Event>, event: Event)
    ensures Declarations(events + [event])
            == if event.Expect? then Declarations(events) + [event] else Declarations(events)
  {
    assert (events + [event])[..|events|] == events;
  }

  // ---------- the declared order ----------

  ghost predicate Joins(e: Event, k: nat) { e.Expect? && k in e.sequences }

  /** The later declaration names the earlier one, or one of the `n` sequences it is
      in. */
  ghost predicate MustFollow(expects: seq<Event>, n: nat, late: int, early: int) {
    && 0 <= early < late < |expects| && expects[late].Expect? && expects[early].Expect?
    && (early in expects[late].after || exists k | 0 <= k < n :: Joins(expects[early], k) && Joins(expects[late], k))
  }

  /** A chain of such steps leads from the later to the earlier one. */
  ghost predicate Follows(expects: seq<Event>, n: nat, late: nat, early: int)
    decreases late
  {
    || MustFollow(expects, n, late, early)
    || exists mid: nat | mid < late :: MustFollow(expects, n, late, mid) && Follows(expects, n, mid, early)
  }

  lemma {:induction false} FollowsEarlier(expects: seq<Event>, n: nat, late: nat, early: int)
    requires Follows(expects, n, late, early)
    ensures 0 <= early < late < |expects|
    decreases late
  {
    if !MustFollow(expects, n, late, early) {
      var mid: nat :| mid < late && MustFollow(expects, n, late, mid) && Follows(expects, n, mid, early);
      FollowsEarlier(expects, n, mid, early);
    }
  }

  /** Later declarations do not matter. */
  lemma {:induction false} FollowsStill(expects: seq<Event>, event: Event, n: nat, late: nat, early: int)
    requires late < |expects|
    ensures Follows(expects + [event], n, late, early) <==> Follows(expects, n, late, early)
    decreases late
  {
    var more := expects + [event];
    assert forall x, y | 0 <= y && y < x && x <= late :: MustFollow(more, n, x, y) <==> MustFollow(expects, n, x, y);
    forall mid: nat | mid < late
      ensures Follows(more, n, mid, early) <==> Follows(expects, n, mid, early)
    {
      FollowsStill(expects, event, n, mid, early);
    }
    assert MustFollow(more, n, late, early) <==> MustFollow(expects, n, late, early);
  }

  // ---------- the book ----------

  datatype Entry = Entry(calls: nat, retired: bool)

  /** What becomes of a call. */
  datatype Outcome = Unexpected | Accepted(taker: nat) | Excessive(taker: nat)

  /** An entry for each declaration, an outcome for each call. */
  datatype Book = Book(entries: seq<Entry>, outcomes: seq<Outcome>)

  /** The accepted calls, by who accepted them. */
  function Log(outcomes: seq<Outcome>): seq<nat> {
    if outcomes == [] then []
    else
      var n := |outcomes| - 1;
      Log(outcomes[..n]) + if outcomes[n].Accepted? then [outcomes[n].taker] else []
  }

  lemma LogGrows(outcomes: seq<Outcome>, outcome: Outcome)
    ensures Log(outcomes + [outcome]) == Log(outcomes) + if outcome.Accepted? then [outcome.taker] else []
  {
    assert (outcomes + [outcome])[..|outcomes|] == outcomes;
  }

  ghost predicate IsSatisfied(expects: seq<Event>, entries: seq<Entry>, d: int) {
    0 <= d < |expects| && d < |entries| && expects[d].Expect? ==>
      expects[d].cardinality.IsSatisfiedByCallCount(entries[d].calls)
  }

  ghost predicate IsSaturated(expects: seq<Event>, d: nat, calls: nat) {
    d < |expects| && expects[d].Expect? && expects[d].cardinality.IsSaturatedByCallCount(calls)
  }

  /** Not retired, and everything it must follow is satisfied. */
  ghost predicate CanTake(expects: seq<Event>, n: nat, entries: seq<Entry>, d: nat) {
    && d < |expects| && d < |entries| && !entries[d].retired
    && forall x | Follows(expects, n, d, x) :: IsSatisfied(expects, entries, x)
  }

  /** The last of the candidates that matches and can take the call. */
  ghost function Newest(expects: seq<Event>, n: nat, entries: seq<Entry>, candidates: seq<nat>,
                        matching: seq<nat>): (taker: Option<nat>)
    ensures taker.Some? ==> taker.value in candidates && CanTake(expects, n, entries, taker.value)
  {
    if candidates == [] then None
    else
      var k := |candidates| - 1;
      if candidates[k] in matching && CanTake(expects, n, entries, candidates[k]) then Some(candidates[k])
      else Newest(expects, n, entries, candidates[..k], matching)
  }

  ghost predicate TakesAt(expects: seq<Event>, n: nat, entries: seq<Entry>, candidates: seq<nat>, matching: seq<nat>,
                          j: int) {
    0 <= j < |candidates| && candidates[j] in matching && CanTake(expects, n, entries, candidates[j])
  }

  /** It is the one behind which no other can. */
  lemma {:induction false} NewestIs(expects: seq<Event>, n: nat, entries: seq<Entry>, candidates: seq<nat>,
                                    matching: seq<nat>, k: int)
    requires -1 <= k < |candidates| && (k >= 0 ==> TakesAt(expects, n, entries, candidates, matching, k))
    requires forall j | k < j :: !TakesAt(expects, n, entries, candidates, matching, j)
    ensures Newest(expects, n, entries, candidates, matching) == if k < 0 then None else Some(candidates[k])
    decreases |candidates|
  {
    hide CanTake;
    var last := |candidates| - 1;
    if k < last {
      assert !TakesAt(expects, n, entries, candidates, matching, last);
      forall j
        ensures TakesAt(expects, n, entries, candidates[..last], matching, j)
                <==> j < last && TakesAt(expects, n, entries, candidates, matching, j)
      {
      }
      NewestIs(expects, n, entries, candidates[..last], matching, k);
    }
  }

  /** An accepted call retires everything that its taker must follow, and the taker
      itself if it asks for that and is saturated now. */
  ghost function AfterAccepted(expects: seq<Event>, n: nat, entries: seq<Entry>, h: nat): seq<Entry>
    requires h < |entries| && |entries| == |expects| && expects[h].Expect?
  {
    seq(|entries|, d requires 0 <= d < |entries| =>
      Entry(entries[d].calls + if d == h then 1 else 0,
            || entries[d].retired || Follows(expects, n, h, d)
            || (d == h && expects[h].retiresOnSaturation && IsSaturated(expects, h, entries[h].calls + 1))))
  }

  ghost function AfterCall(expects: seq<Event>, n: nat, book: Book, event: Event): Book
    requires event.Call? && |book.entries| == |expects| && forall e | e in expects :: e.Expect?
  {
    var candidates := Known(event.candidates, |expects|);
    match Newest(expects, n, book.entries, candidates, event.matching)
    case None => Book(book.entries, book.outcomes + [Unexpected])
    case Some(h) =>
      if IsSaturated(expects, h, book.entries[h].calls) then
        Book(book.entries[h := Entry(book.entries[h].calls + 1, book.entries[h].retired)],
             book.outcomes + [Excessive(h)])
      else Book(AfterAccepted(expects, n, book.entries, h), book.outcomes + [Accepted(h)])
  }

  /** One call more: nobody takes it, or the newest who can. */
  lemma CallIsTaken(expects: seq<Event>, n: nat, book: Book, event: Event, taker: Option<nat>)
    requires event.Call? && |book.entries| == |expects| && forall e | e in expects :: e.Expect?
    requires taker == Newest(expects, n, book.entries, Known(event.candidates, |expects|), event.matching)
    ensures taker.None? ==> AfterCall(expects, n, book, event) == Book(book.entries, book.outcomes + [Unexpected])
    ensures taker.Some? ==>
              var h := taker.value;
              && h < |expects|
              && AfterCall(expects, n, book, event)
                 == if IsSaturated(expects, h, book.entries[h].calls) then
                      Book(book.entries[h := Entry(book.entries[h].calls + 1, book.entries[h].retired)],
                           book.outcomes + [Excessive(h)])
                    else Book(AfterAccepted(expects, n, book.entries, h), book.outcomes + [Accepted(h)])
  {
  }

  /** The book of a whole run with `n` sequences. */
  ghost function Replay(events: seq<Event>, n: nat): (book: Book)
    ensures |book.entries| == |Declarations(events)|
  {
    if events == [] then Book([], [])
    else
      var m := |events| - 1;
      var book := Replay(events[..m], n);
      if events[m].Expect? then Book(book.entries + [Entry(0, false)], book.outcomes)
      else AfterCall(Declarations(events[..m]), n, book, events[m])
  }

  lemma ReplayGrows(events: seq<Event>, event: Event, n: nat)
    ensures var expects, book := Declarations(events), Replay(events, n);
            Replay(events + [event], n)
            == if event.Expect? then Book(book.entries + [Entry(0, false)], book.outcomes)
               else AfterCall(expects, n, book, event)
  {
    assert (events + [event])[..|events|] == events;
    hide AfterCall, Declarations;
  }

  /** Whoever accepted a call has retired all it must follow, and none of those
      accepted a call afterwards. */
  ghost predicate KeepsOrder(expects: seq<Event>, n: nat, entries: seq<Entry>, log: seq<nat>) {
    && (forall i | 0 <= i < |log| :: AllRetired(expects, n, entries, log[i]))
    && forall i, j | 0 <= i < j < |log| :: !Follows(expects, n, log[i], log[j])
  }

  ghost predicate AllRetired(expects: seq<Event>, n: nat, entries: seq<Entry>, d: nat) {
    && d < |expects| == |entries|
    && forall x | Follows(expects, n, d, x) :: 0 <= x < |entries| && entries[x].retired
  }

  lemma OrderAfterDeclaration(expects: seq<Event>, event: Event, n: nat, entries: seq<Entry>, log: seq<nat>)
    requires KeepsOrder(expects, n, entries, log)
    ensures KeepsOrder(expects + [event], n, entries + [Entry(0, false)], log)
  {
    hide Follows;
    forall i, x | 0 <= i < |log|
      ensures Follows(expects + [event], n, log[i], x) <==> Follows(expects, n, log[i], x)
    {
      assert AllRetired(expects, n, entries, log[i]);
      FollowsStill(expects, event, n, log[i], x);
    }
    forall i | 0 <= i < |log|
      ensures AllRetired(expects + [event], n, entries + [Entry(0, false)], log[i])
    {
      assert AllRetired(expects, n, entries, log[i]);
    }
  }

  lemma OrderAfterCall(expects: seq<Event>, n: nat, book: Book, event: Event)
    requires event.Call? && |book.entries| == |expects| && forall e | e in expects :: e.Expect?
    requires KeepsOrder(expects, n, book.entries, Log(book.outcomes))
    ensures var after := AfterCall(expects, n, book, event);
            KeepsOrder(expects, n, after.entries, Log(after.outcomes))
  {
    hide AfterCall, AfterAccepted, Newest, Known, Log, CanTake, Follows, IsSaturated, KeepsOrder;
    var entries, log := book.entries, Log(book.outcomes);
    var taker := Newest(expects, n, entries, Known(event.candidates, |expects|), event.matching);
    var after := AfterCall(expects, n, book, event);
    CallIsTaken(expects, n, book, event, taker);
    assert log + [] == log;
    if taker == None {
      LogGrows(book.outcomes, Unexpected);
      OrderStays(expects, n, entries, after.entries, log);
    } else if IsSaturated(expects, taker.value, entries[taker.value].calls) {
      LogGrows(book.outcomes, Excessive(taker.value));
      OrderStays(expects, n, entries, after.entries, log);
    } else {
      LogGrows(book.outcomes, Accepted(taker.value));
      TakerRetires(expects, n, entries, taker.value);
      OrderGrows(expects, n, entries, after.entries, log, taker.value);
    }
  }

  ghost predicate RetiredStay(entries: seq<Entry>, entries': seq<Entry>) {
    && |entries'| == |entries|
    && forall d | 0 <= d < |entries| && entries[d].retired :: entries'[d].retired
  }

  lemma OrderStays(expects: seq<Event>, n: nat, entries: seq<Entry>, entries': seq<Entry>, log: seq<nat>)
    requires KeepsOrder(expects, n, entries, log) && RetiredStay(entries, entries')
    ensures KeepsOrder(expects, n, entries', log)
  {
    hide Follows;
    forall i | 0 <= i < |log|
      ensures AllRetired(expects, n, entries', log[i])
    {
      assert AllRetired(expects, n, entries, log[i]);
    }
  }

  /** A taker that is not retired is followed by nobody who accepted a call before. */
  lemma OrderGrows(expects: seq<Event>, n: nat, entries: seq<Entry>, entries': seq<Entry>, log: seq<nat>, h: nat)
    requires KeepsOrder(expects, n, entries, log) && RetiredStay(entries, entries')
    requires h < |entries| && !entries[h].retired && AllRetired(expects, n, entries', h)
    ensures KeepsOrder(expects, n, entries', log + [h])
  {
    hide Follows;
    OrderStays(expects, n, entries, entries', log);
    forall i | 0 <= i < |log|
      ensures !Follows(expects, n, log[i], h)
    {
      assert AllRetired(expects, n, entries, log[i]);
    }
  }

  lemma TakerRetires(expects: seq<Event>, n: nat, entries: seq<Entry>, h: nat)
    requires h < |expects| == |entries| && expects[h].Expect? && CanTake(expects, n, entries, h)
    ensures !entries[h].retired && RetiredStay(entries, AfterAccepted(expects, n, entries, h))
    ensures AllRetired(expects, n, AfterAccepted(expects, n, entries, h), h)
  {
    forall x | Follows(expects, n, h, x)
      ensures 0 <= x < h
    {
      FollowsEarlier(expects, n, h, x);
    }
    hide Follows;
  }

  /** In every run, whoever must follow another accepts calls only after all that the
      other accepts. */
  lemma {:induction false} ReplayIsInOrder(events: seq<Event>, n: nat)
    ensures var book := Replay(events, n);
            KeepsOrder(Declarations(events), n, book.entries, Log(book.outcomes))
  {
    hide KeepsOrder, AfterCall;
    if events == [] {
      NothingInOrder(n);
    } else {
      var m := |events| - 1;
      ReplayIsInOrder(events[..m], n);
      var expects, book := Declarations(events[..m]), Replay(events[..m], n);
      assert events == events[..m] + [events[m]];
      DeclarationsGrow(events[..m], events[m]);
      if events[m].Expect? {
        OrderAfterDeclaration(expects, events[m], n, book.entries, Log(book.outcomes));
      } else {
        OrderAfterCall(expects, n, book, events[m]);
      }
    }
  }

  lemma NothingInOrder(n: nat)
    ensures KeepsOrder([], n, [], [])
  {
  }
}
