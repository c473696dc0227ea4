/** Any run of a test: expectations are declared and calls are made in any order, and
    everything turns out as the book of the run says. */
module MockRuns {
  import opened CallBooks
  import opened CallBounds
  import opened CallOrder
  import opened DeclaredLinks
  import opened Expectations
  import opened MockCalls
  import opened Options
  import opened Prerequisites
  import opened Traversal

  /** The declarations are all the expectations there are, each once. */
  ghost predicate Numbered(all: set<Expectation>, declared: seq<Expectation>, expects: seq<Event>) {
    && |declared| == |expects| && (forall e | e in expects :: e.Expect?)
    && (forall x | x in all :: x in declared) && (forall x | x in declared :: x in all) && Distinct(declared)
  }

  ghost predicate SameTerms(x: Expectation, event: Event) {
    event.Expect? && x.cardinality == event.cardinality && x.retiresOnSaturation == event.retiresOnSaturation
  }

  ghost predicate EntryIs(x: Expectation, event: Event, entry: Entry)
    reads x
  {
    SameTerms(x, event) && x.callCount == entry.calls && x.retired == entry.retired
  }

  ghost predicate EntriesAre(declared: seq<Expectation>, expects: seq<Event>, entries: seq<Entry>)
    reads declared
  {
    && |declared| == |expects| == |entries|
    && forall d | 0 <= d < |declared| :: EntryIs(declared[d], expects[d], entries[d])
  }

  ghost predicate LogIs(log: seq<Expectation>, declared: seq<Expectation>, numbers: seq<nat>) {
    && |log| == |numbers|
    && forall i | 0 <= i < |log| :: numbers[i] < |declared| && log[i] == declared[numbers[i]]
  }

  /** The objects are linked as the declarations say. */
  ghost predicate Linked(m: Mocks, sequences: seq<Sequence>, declared: seq<Expectation>, expects: seq<Event>)
    reads m, m.all, sequences
  {
    && m.Valid() && Numbered(m.all, declared, expects) && Distinct(sequences)
    && AllChained(sequences, GraphOf(m.all))
    && AllMembers(sequences, declared, expects) && OnlyMembers(sequences, declared, expects)
    && AllFollow(GraphOf(m.all), |sequences|, declared, expects)
    && OnlyFollow(GraphOf(m.all), |sequences|, declared, expects)
  }

  /** What holds between the events of a run. */
  ghost predicate Running(m: Mocks, sequences: seq<Sequence>, declared: seq<Expectation>, expects: seq<Event>,
                          book: Book)
    reads m, m.all, sequences, declared
  {
    && Linked(m, sequences, declared, expects)
    && EntriesAre(declared, expects, book.entries)
    && LogIs(m.log, declared, Log(book.outcomes))
  }

  lemma ValidIsClosed(m: Mocks)
    requires m.Valid()
    ensures Closed(GraphOf(m.all))
  {
    hide Ranked, Downward, InOrder, Reaches;
  }

  // ---------- a declaration ----------

  /** The sequences as they stand. */
  lemma AsTheyStand(m: Mocks, sequences: seq<Sequence>, declared: seq<Expectation>, expects: seq<Event>)
      returns (before: seq<seq<Expectation>>)
    requires Linked(m, sequences, declared, expects)
    ensures m.Valid() && Closed(GraphOf(m.all)) && Numbered(m.all, declared, expects) && Distinct(sequences)
    ensures AllFollow(GraphOf(m.all), |sequences|, declared, expects)
    ensures OnlyFollow(GraphOf(m.all), |sequences|, declared, expects)
    ensures |before| == |sequences|
    ensures forall k | 0 <= k < |sequences| ::
              sequences[k].Valid(m.all) && sequences[k].ValidIn(GraphOf(m.all)) && sequences[k].members == before[k]
    ensures forall d, k | 0 <= d < |declared| && 0 <= k < |sequences| && Joins(expects[d], k) ::
              declared[d] in before[k]
    ensures forall k, x | 0 <= k < |sequences| && x in before[k] :: IsJoined(declared, expects, x, k)
  {
    ValidIsClosed(m);
    hide Mocks.Valid, Sequence.ValidIn, Closed, MustFollow, IsJoined, OnlyFollow, AllFollow;
    before := seq(|sequences|, k requires 0 <= k < |sequences| reads sequences => sequences[k].members);
    forall d, k | 0 <= d < |declared| && 0 <= k < |sequences| && Joins(expects[d], k)
      ensures declared[d] in before[k]
    {
      assert IsMember(sequences, declared, expects, d, k);
    }
  }

  lemma NumberedStill(all: set<Expectation>, declared: seq<Expectation>, expects: seq<Event>, event: Event,
                      e: Expectation)
    requires Numbered(all, declared, expects) && event.Expect? && e !in all
    ensures Numbered(all + {e}, declared + [e], expects + [event])
  {
  }

  lemma EntriesStill(declared: seq<Expectation>, expects: seq<Event>, entries: seq<Entry>, event: Event, e: Expectation)
    requires EntriesAre(declared, expects, entries) && EntryIs(e, event, Entry(0, false))
    ensures EntriesAre(declared + [e], expects + [event], entries + [Entry(0, false)])
  {
  }

  lemma LogStill(log: seq<Expectation>, declared: seq<Expectation>, numbers: seq<nat>, e: Expectation)
    requires LogIs(log, declared, numbers)
    ensures LogIs(log, declared + [e], numbers)
  {
  }

  /** The declaration itself: everything stays linked. */
  method Link(m: Mocks, sequences: seq<Sequence>, declared: seq<Expectation>, ghost expects: seq<Event>, event: Event)
      returns (e: Expectation)
    requires Linked(m, sequences, declared, expects)
    requires event.Expect? && event.cardinality.Valid()
    modifies m, sequences
    ensures Linked(m, sequences, declared + [e], expects + [event])
    ensures EntryIs(e, event, Entry(0, false))
    ensures fresh(e) && m.all == old(m.all) + {e} && m.log == old(m.log)
  {
    hide Mocks.Valid, Sequence.ValidIn, AllFollow, AllMembers, AllChained, Closed, Chained, Pick;
    hide OnlyFollow, OnlyMembers, Distinct;
    ghost var all0, g0 := m.all, GraphOf(m.all);
    ghost var before := AsTheyStand(m, sequences, declared, expects);
    var chosen := Pick(sequences, event.sequences);
    var after := set x | x in Pick(declared, event.after);
    LastsAreMembers(sequences, before, g0, event);
    e := m.ExpectCall(event.cardinality, event.retiresOnSaturation, chosen, after);
    ghost var g := GraphOf(m.all);
    assert AllJoined(sequences, before, chosen, g0, g, e);
    NumberedStill(all0, declared, expects, event, e);
    ChainedStill(sequences, before, chosen, g0, g, e);
    MembersStill(sequences, before, declared, expects, event, g0, g, e);
    OnlyMembersStill(sequences, before, declared, expects, event, g0, g, e);
    JoinedAreChained(sequences, before, event, g0, g, e);
    FollowStill(g0, g, |sequences|, before, declared, expects, event, e);
    OnlyFollowStill(g0, g, |sequences|, before, declared, expects, event, e);
  }

  method Declare(m: Mocks, sequences: seq<Sequence>, declared: seq<Expectation>, ghost expects: seq<Event>,
                 ghost book: Book, event: Event)
      returns (e: Expectation)
    requires Running(m, sequences, declared, expects, book)
    requires event.Expect? && event.cardinality.Valid()
    modifies m, sequences
    ensures Running(m, sequences, declared + [e], expects + [event],
                    Book(book.entries + [Entry(0, false)], book.outcomes))
    ensures fresh(e) && m.all == old(m.all) + {e} && m.log == old(m.log)
  {
    hide Linked, EntriesAre, LogIs, EntryIs;
    e := Link(m, sequences, declared, expects, event);
    EntriesStill(declared, expects, book.entries, event, e);
    LogStill(m.log, declared, Log(book.outcomes), e);
  }

  // ---------- a call ----------

  /** Who can handle a call stands in the book. */
  lemma HandlersAreTakers(m: Mocks, sequences: seq<Sequence>, declared: seq<Expectation>, expects: seq<Event>,
                          book: Book, d: nat)
    requires Running(m, sequences, declared, expects, book) && d < |declared|
    ensures declared[d] in m.all
    ensures m.CanHandle(declared[d]) <==> CanTake(expects, |sequences|, book.entries, d)
  {
    var g, n := GraphOf(m.all), |sequences|;
    hide Mocks.Valid, AllChained, AllMembers, OnlyMembers, AllFollow, OnlyFollow, Reaches, Follows, LogIs;
    forall x: nat | x < |declared|
      ensures Reaches(g, declared[d], declared[x]) <==> Follows(expects, n, d, x)
      ensures declared[x] in UnsatisfiedOf(m.all) <==> !CallBooks.IsSatisfied(expects, book.entries, x)
    {
      PrerequisitesAreDeclared(g, n, declared, expects, d, x);
      assert EntryIs(declared[x], expects[x], book.entries[x]);
    }
    assert EntryIs(declared[d], expects[d], book.entries[d]);
    forall x | Follows(expects, n, d, x)
      ensures 0 <= x < |declared|
    {
      FollowsEarlier(expects, n, d, x);
    }
  }

  /** A call that `h` handled, told on the objects. */
  ghost predicate Handled(declared: seq<Expectation>, expects: seq<Event>, n: nat, entries: seq<Entry>, h: nat,
                          excessive: bool)
    reads declared
  {
    && |declared| == |expects| == |entries| && h < |declared|
    && (excessive <==> CallBooks.IsSaturated(expects, h, entries[h].calls))
    && forall d | 0 <= d < |declared| ::
         && SameTerms(declared[d], expects[d])
         && declared[d].callCount == entries[d].calls + (if d == h then 1 else 0)
         && (declared[d].retired <==>
               entries[d].retired
               || (!excessive && Follows(expects, n, h, d))
               || (!excessive && d == h && declared[d].retiresOnSaturation && declared[d].IsSaturated()))
  }

  ghost predicate SameOrder(g: Graph<Expectation>, declared: seq<Expectation>, expects: seq<Event>, n: nat) {
    forall h: nat, d: nat | h < |declared| && d < |declared| ::
      Reaches(g, declared[h], declared[d]) <==> Follows(expects, n, h, d)
  }

  ghost function CountsOf(all: set<Expectation>): map<Expectation, nat>
    reads all`callCount
  {
    map x | x in all :: x.callCount
  }

  /** What a call does, from what was retired and how often each was called. */
  ghost predicate Effect(all: set<Expectation>, retired0: set<Expectation>, counts0: map<Expectation, nat>,
                         g: Graph<Expectation>, h: Expectation, excessive: bool)
    reads all
  {
    && h in all && all <= counts0.Keys
    && (excessive <==> h.cardinality.IsSaturatedByCallCount(counts0[h]))
    && (forall x | x in all :: x.callCount == counts0[x] + if x == h then 1 else 0)
    && forall x | x in all ::
         x.retired <==>
           x in retired0 || (!excessive && Reaches(g, h, x))
           || (!excessive && x == h && x.retiresOnSaturation && x.IsSaturated())
  }

  /** The book holds this. */
  ghost predicate InBook(declared: seq<Expectation>, expects: seq<Event>, entries: seq<Entry>,
                         retired0: set<Expectation>, counts0: map<Expectation, nat>) {
    && |declared| == |expects| == |entries|
    && forall d | 0 <= d < |declared| ::
         && SameTerms(declared[d], expects[d]) && declared[d] in counts0
         && entries[d].calls == counts0[declared[d]] && (entries[d].retired <==> declared[d] in retired0)
  }

  lemma HandledIs(all: set<Expectation>, retired0: set<Expectation>, counts0: map<Expectation, nat>,
                  g: Graph<Expectation>, declared: seq<Expectation>, expects: seq<Event>, n: nat, entries: seq<Entry>,
                  h: nat, excessive: bool)
    requires Numbered(all, declared, expects) && SameOrder(g, declared, expects, n)
    requires InBook(declared, expects, entries, retired0, counts0) && h < |declared|
    requires Effect(all, retired0, counts0, g, declared[h], excessive)
    ensures Handled(declared, expects, n, entries, h, excessive)
  {
    hide Follows, Reaches;
    forall d: nat | d < |declared|
      ensures declared[d] in all && (declared[d] == declared[h] <==> d == h)
      ensures Reaches(g, declared[h], declared[d]) <==> Follows(expects, n, h, d)
    {
    }
  }

  /** And told in the book. */
  lemma EntriesAfter(declared: seq<Expectation>, expects: seq<Event>, n: nat, entries: seq<Entry>, h: nat,
                     excessive: bool)
    requires Handled(declared, expects, n, entries, h, excessive)
    ensures EntriesAre(declared, expects,
                       if excessive then entries[h := Entry(entries[h].calls + 1, entries[h].retired)]
                       else AfterAccepted(expects, n, entries, h))
    ensures excessive <==> CallBooks.IsSaturated(expects, h, entries[h].calls)
  {
    hide Follows;
  }

  lemma LogAfter(log: seq<Expectation>, declared: seq<Expectation>, outcomes: seq<Outcome>, outcome: Outcome)
    requires LogIs(log, declared, Log(outcomes)) && (outcome.Accepted? ==> outcome.taker < |declared|)
    ensures LogIs(if outcome.Accepted? then log + [declared[outcome.taker]] else log, declared,
                  Log(outcomes + [outcome]))
  {
    LogGrows(outcomes, outcome);
    hide Log;
  }

  /** What the caller sees of a call. */
  datatype Reply = Reply(handler: Expectation?, excessive: bool)

  ghost predicate ReplyIs(reply: Reply, declared: seq<Expectation>, outcome: Outcome) {
    match outcome
    case Unexpected => reply.handler == null
    case Accepted(d) => d < |declared| && reply.handler == declared[d] && !reply.excessive
    case Excessive(d) => d < |declared| && reply.handler == declared[d] && reply.excessive
  }

  ghost predicate RepliesAre(replies: seq<Reply>, declared: seq<Expectation>, outcomes: seq<Outcome>) {
    && |replies| == |outcomes|
    && forall i | 0 <= i < |replies| :: ReplyIs(replies[i], declared, outcomes[i])
  }

  /** The objects and the book agree on who can handle a call. */
  ghost predicate SameTakers(m: Mocks, declared: seq<Expectation>, expects: seq<Event>, n: nat, entries: seq<Entry>)
    reads m, m.all
  {
    forall d: nat | d < |declared| ::
      declared[d] in m.all && (m.CanHandle(declared[d]) <==> CanTake(expects, n, entries, d))
  }

  lemma BookAgrees(m: Mocks, sequences: seq<Sequence>, declared: seq<Expectation>, expects: seq<Event>, book: Book)
    requires Running(m, sequences, declared, expects, book)
    ensures SameTakers(m, declared, expects, |sequences|, book.entries)
    ensures SameOrder(GraphOf(m.all), declared, expects, |sequences|)
    ensures m.Valid() && Linked(m, sequences, declared, expects) && Numbered(m.all, declared, expects)
    ensures EntriesAre(declared, expects, book.entries) && LogIs(m.log, declared, Log(book.outcomes))
  {
    hide Mocks.Valid, AllChained, AllMembers, OnlyMembers, AllFollow, OnlyFollow, Reaches, Follows, CanTake, EntriesAre;
    hide LogIs, Mocks.CanHandle;
    forall d: nat | d < |declared|
      ensures declared[d] in m.all && (m.CanHandle(declared[d]) <==> CanTake(expects, |sequences|, book.entries, d))
    {
      HandlersAreTakers(m, sequences, declared, expects, book, d);
    }
    forall h: nat, d: nat | h < |declared| && d < |declared|
      ensures Reaches(GraphOf(m.all), declared[h], declared[d]) <==> Follows(expects, |sequences|, h, d)
    {
      PrerequisitesAreDeclared(GraphOf(m.all), |sequences|, declared, expects, h, d);
    }
  }

  lemma BeforeCall(all: set<Expectation>, declared: seq<Expectation>, expects: seq<Event>, entries: seq<Entry>)
    requires Numbered(all, declared, expects) && EntriesAre(declared, expects, entries)
    ensures InBook(declared, expects, entries, RetiredOf(all), CountsOf(all))
  {
    forall d: nat | d < |declared|
      ensures EntryIs(declared[d], expects[d], entries[d])
    {
    }
  }

  /** The call itself, on the objects: `k` is the place of its handler. */
  method Dispatch(m: Mocks, candidates: seq<Expectation>, matching: set<Expectation>)
      returns (handler: Expectation?, excessive: bool, ghost k: int)
    requires m.Valid() && forall e | e in candidates :: e in m.all
    modifies m, m.all
    ensures m.Valid() && m.all == old(m.all) && GraphOf(m.all) == old(GraphOf(m.all))
    ensures -1 <= k < |candidates|
    ensures forall j | k < j < |candidates| && candidates[j] in matching :: !old(m.CanHandle(candidates[j]))
    ensures k < 0 ==> handler == null && m.log == old(m.log) && forall x | x in m.all :: unchanged(x)
    ensures k >= 0 ==>
              && candidates[k] in m.all && handler == candidates[k]
              && candidates[k] in matching && old(m.CanHandle(candidates[k]))
              && Effect(m.all, old(RetiredOf(m.all)), old(CountsOf(m.all)), GraphOf(m.all), candidates[k], excessive)
              && m.log == if excessive then old(m.log) else old(m.log) + [candidates[k]]
  {
    hide Mocks.Valid, Mocks.CanHandle, Reaches, GraphOf;
    handler, excessive := m.HandleCall(candidates, matching);
    k := -1;
    if handler != null {
      k :| 0 <= k < |candidates| && candidates[k] == handler
           && forall j | k < j < |candidates| && candidates[j] in matching :: !old(m.CanHandle(candidates[j]));
    }
  }

  /** The candidates that match and can handle the call are those that take it in the
      book. */
  lemma SameCandidates(m: Mocks, declared: seq<Expectation>, expects: seq<Event>, n: nat, entries: seq<Entry>,
                       event: Event, candidates: seq<Expectation>, matching: set<Expectation>)
      returns (known: seq<nat>)
    requires Numbered(m.all, declared, expects) && SameTakers(m, declared, expects, n, entries) && event.Call?
    requires candidates == Pick(declared, event.candidates)
    requires matching == set x | x in Pick(declared, event.matching)
    ensures known == Known(event.candidates, |expects|) && |known| == |candidates|
    ensures forall e | e in candidates :: e in m.all
    ensures forall j | 0 <= j < |known| :: known[j] < |declared| && candidates[j] == declared[known[j]]
    ensures forall j | 0 <= j < |known| ::
              (candidates[j] in matching && m.CanHandle(candidates[j]))
              <==> TakesAt(expects, n, entries, known, event.matching, j)
    ensures forall j | TakesAt(expects, n, entries, known, event.matching, j) :: 0 <= j < |known|
  {
    known := Known(event.candidates, |declared|);
    hide Mocks.CanHandle, CanTake, Known, Distinct;
    forall j | 0 <= j < |known|
      ensures (candidates[j] in matching && m.CanHandle(candidates[j]))
              <==> TakesAt(expects, n, entries, known, event.matching, j)
    {
      PickedIffNamed(declared, event.matching, known[j]);
    }
  }

  /** And who takes it in the book. */
  method Handle(m: Mocks, declared: seq<Expectation>, ghost expects: seq<Event>, ghost n: nat,
                ghost entries: seq<Entry>, event: Event)
      returns (handler: Expectation?, excessive: bool, ghost taker: Option<nat>)
    requires m.Valid() && Numbered(m.all, declared, expects) && event.Call?
    requires SameTakers(m, declared, expects, n, entries)
    modifies m, m.all
    ensures m.Valid() && m.all == old(m.all) && GraphOf(m.all) == old(GraphOf(m.all))
    ensures taker == Newest(expects, n, entries, Known(event.candidates, |expects|), event.matching)
    ensures taker.None? ==> handler == null && m.log == old(m.log) && forall x | x in m.all :: unchanged(x)
    ensures taker.Some? ==>
              && taker.value < |declared| && handler == declared[taker.value]
              && Effect(m.all, old(RetiredOf(m.all)), old(CountsOf(m.all)), GraphOf(m.all), declared[taker.value],
                        excessive)
              && m.log == if excessive then old(m.log) else old(m.log) + [declared[taker.value]]
  {
    hide *;
    var candidates := Pick(declared, event.candidates);
    var matching := set x | x in Pick(declared, event.matching);
    ghost var known := SameCandidates(m, declared, expects, n, entries, event, candidates, matching);
    ghost var k;
    handler, excessive, k := Dispatch(m, candidates, matching);
    NewestIs(expects, n, entries, known, event.matching, k);
    taker := if k < 0 then None else Some(known[k]);
  }

  method MakeCall(m: Mocks, sequences: seq<Sequence>, declared: seq<Expectation>, ghost expects: seq<Event>,
                  ghost book: Book, event: Event)
      returns (reply: Reply, ghost outcome: Outcome)
    requires Running(m, sequences, declared, expects, book) && event.Call?
    modifies m, m.all
    ensures |book.entries| == |expects| && forall e | e in expects :: e.Expect?
    ensures Running(m, sequences, declared, expects, AfterCall(expects, |sequences|, book, event))
    ensures AfterCall(expects, |sequences|, book, event).outcomes == book.outcomes + [outcome]
    ensures ReplyIs(reply, declared, outcome) && m.all == old(m.all)
  {
    hide Mocks.Valid, AllChained, AllMembers, OnlyMembers, AllFollow, OnlyFollow, SameTakers, SameOrder, InBook, Effect;
    hide LogIs, Distinct, Newest, Known, Log, AfterAccepted, AfterCall, GraphOf, RetiredOf, CountsOf;
    ghost var n, entries := |sequences|, book.entries;
    ghost var retired0, counts0, log0 := RetiredOf(m.all), CountsOf(m.all), m.log;
    BookAgrees(m, sequences, declared, expects, book);
    BeforeCall(m.all, declared, expects, entries);
    hide EntriesAre;
    var handler, excessive;
    ghost var taker;
    handler, excessive, taker := Handle(m, declared, expects, n, entries, event);
    reply := Reply(handler, excessive);
    CallIsTaken(expects, n, book, event, taker);
    if taker == None {
      outcome := Unexpected;
    } else {
      ghost var h := taker.value;
      outcome := if excessive then Excessive(h) else Outcome.Accepted(h);
      HandledIs(m.all, retired0, counts0, GraphOf(m.all), declared, expects, n, entries, h, excessive);
      EntriesAfter(declared, expects, n, entries, h, excessive);
    }
    LogAfter(log0, declared, book.outcomes, outcome);
  }

  // ---------- whole runs ----------

  /** Calls are accepted only in the order that the declarations ask for. */
  ghost predicate InDeclaredOrder(expects: seq<Event>, n: nat, declared: seq<Expectation>, log: seq<Expectation>)
    requires |declared| == |expects|
  {
    forall late: nat, early: nat, i, j
      | late < |declared| && early < |declared| && Follows(expects, n, late, early)
        && 0 <= i < |log| && 0 <= j < |log| && log[i] == declared[early] && log[j] == declared[late] ::
      i < j
  }

  /** Between any two events, the calls so far were accepted in the declared order. */
  lemma AcceptedInOrder(m: Mocks, sequences: seq<Sequence>, declared: seq<Expectation>, expects: seq<Event>, book: Book)
    requires Running(m, sequences, declared, expects, book)
    ensures |declared| == |expects| && InDeclaredOrder(expects, |sequences|, declared, m.log)
  {
    var g, n := GraphOf(m.all), |sequences|;
    hide GraphOf, AllMembers, OnlyMembers, AllChained, OnlyFollow, Reaches, Follows, EntriesAre, LogIs;
    forall late: nat, early: nat, i, j
      | late < |declared| && early < |declared| && Follows(expects, n, late, early)
        && 0 <= i < |m.log| && 0 <= j < |m.log| && m.log[i] == declared[early] && m.log[j] == declared[late]
      ensures i < j
    {
      FollowsReaches(g, n, declared, expects, late, early);
      ReachesLowersRank(g, m.rank, m.log[j], m.log[i]);
    }
  }

  /** And the report of unsatisfied prerequisites of an expectation is empty exactly when
      all of them are satisfied. */
  lemma ReportsAreComplete(m: Mocks, sequences: seq<Sequence>, declared: seq<Expectation>, expects: seq<Event>,
                           book: Book, e: Expectation)
    requires Running(m, sequences, declared, expects, book) && e in m.all
    ensures var g, bad := GraphOf(m.all), UnsatisfiedOf(m.all);
            (forall x | x in bad :: !Reaches(g, e, x))
            <==> (forall x | x in bad :: !Reaches(Expanded(g, IdleOf(m.all) + {e}), e, x))
  {
    hide RunOk, InOrder, Reaches, Expanded;
    ReportIsComplete(GraphOf(m.all), m.rank, RetiredOf(m.all), m.used, UnsatisfiedOf(m.all), IdleOf(m.all), e);
  }

  method NewSequences(n: nat) returns (sequences: seq<Sequence>)
    ensures |sequences| == n && fresh(sequences) && Distinct(sequences)
    ensures forall s | s in sequences :: s.last == null && s.members == []
  {
    sequences := [];
    for i := 0 to n
      invariant |sequences| == i && fresh(sequences) && Distinct(sequences)
      invariant forall s | s in sequences :: s.last == null && s.members == []
    {
      var s := new Sequence();
      sequences := sequences + [s];
    }
  }

  /** The objects and the replies are as the book of these events says. */
  ghost predicate AsReplayed(m: Mocks, sequences: seq<Sequence>, declared: seq<Expectation>, replies: seq<Reply>,
                             events: seq<Event>)
    reads m, m.all, sequences, declared
  {
    && Running(m, sequences, declared, Declarations(events), Replay(events, |sequences|))
    && RepliesAre(replies, declared, Replay(events, |sequences|).outcomes)
  }

  lemma NothingDeclared(m: Mocks, sequences: seq<Sequence>)
    requires m.Valid() && m.all == {} && m.log == [] && Distinct(sequences)
    requires forall s | s in sequences :: s.last == null && s.members == []
    ensures AsReplayed(m, sequences, [], [], [])
  {
    hide Mocks.Valid;
  }

  /** One event more, on the objects and in the book. */
  method Step(m: Mocks, sequences: seq<Sequence>, declared: seq<Expectation>, replies: seq<Reply>,
              ghost events: seq<Event>, event: Event)
      returns (declared': seq<Expectation>, replies': seq<Reply>)
    requires AsReplayed(m, sequences, declared, replies, events)
    requires event.Expect? ==> event.cardinality.Valid()
    modifies m, m.all, sequences
    ensures AsReplayed(m, sequences, declared', replies', events + [event])
    ensures fresh(m.all - old(m.all))
  {
    hide Running, Replay, Declarations, AfterCall, ReplyIs;
    DeclarationsGrow(events, event);
    ReplayGrows(events, event, |sequences|);
    ghost var expects, book := Declarations(events), Replay(events, |sequences|);
    if event.Expect? {
      var e := Declare(m, sequences, declared, expects, book, event);
      declared', replies' := declared + [e], replies;
      RepliesStand(replies, declared, book.outcomes, e);
    } else {
      var reply;
      ghost var outcome;
      reply, outcome := MakeCall(m, sequences, declared, expects, book, event);
      declared', replies' := declared, replies + [reply];
    }
  }

  lemma RepliesStand(replies: seq<Reply>, declared: seq<Expectation>, outcomes: seq<Outcome>, e: Expectation)
    requires RepliesAre(replies, declared, outcomes)
    ensures RepliesAre(replies, declared + [e], outcomes)
  {
  }

  /** A whole run with `n` sequences: every reply, every count and every retirement is as
      the book says, and calls are accepted in the declared order. */
  method Run(events: seq<Event>, n: nat)
      returns (m: Mocks, sequences: seq<Sequence>, declared: seq<Expectation>, replies: seq<Reply>)
    requires forall event | event in events && event.Expect? :: event.cardinality.Valid()
    ensures |sequences| == n && AsReplayed(m, sequences, declared, replies, events)
    ensures |declared| == |Declarations(events)| && InDeclaredOrder(Declarations(events), n, declared, m.log)
    ensures AllInBounds(Declarations(events), n, Replay(events, n))
    ensures InTurn(Declarations(events), Replay(events, n).outcomes)
  {
    ReplayIsInBounds(events, n);
    hide AllInBounds, InTurn;
    m := new Mocks();
    sequences := NewSequences(n);
    NothingDeclared(m, sequences);
    declared, replies := RunOn(m, sequences, events);
    AcceptedInOrder(m, sequences, declared, Declarations(events), Replay(events, n));
  }

  method RunOn(m: Mocks, sequences: seq<Sequence>, events: seq<Event>)
      returns (declared: seq<Expectation>, replies: seq<Reply>)
    requires AsReplayed(m, sequences, [], [], []) && m.all == {}
    requires forall event | event in events && event.Expect? :: event.cardinality.Valid()
    modifies m, sequences
    ensures AsReplayed(m, sequences, declared, replies, events)
  {
    hide *;
    declared, replies := [], [];
    assert events[..0] == [];
    for i := 0 to |events|
      invariant fresh(m.all)
      invariant AsReplayed(m, sequences, declared, replies, events[..i])
    {
      assert events[..i + 1] == events[..i] + [events[i]];
      declared, replies := Step(m, sequences, declared, replies, events[..i], events[i]);
    }
    assert events[..|events|] == events;
  }
}
