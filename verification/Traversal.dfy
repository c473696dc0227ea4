/** The stack-driven walks over prerequisites, as predicates on what has been
    retired, or seen satisfied, and what is still on the stack. */
module Traversal {
  import opened Prerequisites
  import opened Sets

  ghost predicate FromStart<T>(g: Graph<T>, start: T, x: T) { x == start || Reaches(g, start, x) }

  // ---------- retiring ----------

  /** Between two pops: retired nodes with an unretired prerequisite are on the stack. */
  ghost predicate Pending<T>(g: Graph<T>, start: T, retired0: set<T>, retired: set<T>, stack: seq<T>) {
    && start in g && retired0 <= retired <= g.Keys
    && (forall x | x in retired :: x in retired0 || Reaches(g, start, x))
    && (forall x | x in stack :: x in g && FromStart(g, start, x))
    && (forall x | x in g && (x in retired || x == start) && x !in stack :: g[x] <= retired)
  }

  /** While `exp` is expanded: so are they, or they are `exp` itself. */
  ghost predicate Expanding<T>(g: Graph<T>, start: T, retired0: set<T>, retired: set<T>, stack: seq<T>,
                               exp: T, todo: set<T>) {
    && start in g && retired0 <= retired <= g.Keys
    && (forall x | x in retired :: x in retired0 || Reaches(g, start, x))
    && (forall x | x in stack :: x in g && FromStart(g, start, x))
    && (forall x | x in g && (x in retired || x == start) && x !in stack && x != exp :: g[x] <= retired)
    && exp in g && FromStart(g, start, exp)
    && todo <= g[exp] && g[exp] - todo <= retired
  }

  lemma PendingAtFirst<T>(g: Graph<T>, start: T, retired: set<T>)
    requires start in g && retired <= g.Keys && Downward(g, retired)
    ensures Pending(g, start, retired, retired, [start])
  {
  }

  lemma PendingPops<T>(g: Graph<T>, start: T, retired0: set<T>, retired: set<T>, stack: seq<T>)
    requires Pending(g, start, retired0, retired, stack) && stack != []
    ensures var n := |stack| - 1;
            stack[n] in g && Expanding(g, start, retired0, retired, stack[..n], stack[n], g[stack[n]])
  {
  }

  lemma ExpandingVisits<T>(g: Graph<T>, start: T, retired0: set<T>, retired: set<T>, stack: seq<T>,
                           exp: T, todo: set<T>, next: T)
    requires Closed(g) && Expanding(g, start, retired0, retired, stack, exp, todo) && next in todo
    ensures next in g
    ensures next in retired ==> Expanding(g, start, retired0, retired, stack, exp, todo - {next})
    ensures next !in retired ==>
              Expanding(g, start, retired0, retired + {next}, stack + [next], exp, todo - {next})
  {
    if exp == start {
      ReachesDirectly(g, start, next);
    } else {
      ReachesOn(g, start, exp, next);
    }
  }

  lemma ExpandingEnds<T>(g: Graph<T>, start: T, retired0: set<T>, retired: set<T>, stack: seq<T>, exp: T)
    requires Expanding(g, start, retired0, retired, stack, exp, {})
    ensures Pending(g, start, retired0, retired, stack)
  {
  }

  lemma PendingEnds<T>(g: Graph<T>, start: T, retired0: set<T>, retired: set<T>)
    requires Pending(g, start, retired0, retired, [])
    ensures Downward(g, retired)
    ensures forall x :: x in retired <==> x in retired0 || Reaches(g, start, x)
  {
    forall x | Reaches(g, start, x)
      ensures x in retired
    {
      ReachesStaysIn(g, start, x, retired);
    }
  }

  // ---------- searching ----------

  /** `g[exp]` where `exp` is expanded, nothing elsewhere. */
  ghost function Expanded<T>(g: Graph<T>, expand: set<T>): Graph<T> {
    map x | x in g :: if x in expand then g[x] else {}
  }

  /** Every bad node below `start` has been found, or lies below the stack. */
  ghost predicate Searching<T>(g: Graph<T>, start: T, bad: set<T>, found: set<T>, stack: seq<T>) {
    && start in g
    && (forall x | x in stack :: x in g && FromStart(g, start, x))
    && (forall x | x in found :: x in bad && Reaches(g, start, x))
    && (forall x | x in bad && Reaches(g, start, x) :: x in found || BelowStack(g, stack, x))
  }

  ghost predicate BelowStack<T>(g: Graph<T>, stack: seq<T>, x: T) {
    exists i :: 0 <= i < |stack| && Reaches(g, stack[i], x)
  }

  ghost predicate AtOrBelow<T>(g: Graph<T>, todo: set<T>, x: T) {
    exists y :: y in todo && (y == x || Reaches(g, y, x))
  }

  ghost predicate SearchingBelow<T>(g: Graph<T>, start: T, bad: set<T>, found: set<T>, stack: seq<T>,
                                    exp: T, todo: set<T>) {
    && start in g
    && (forall x | x in stack :: x in g && FromStart(g, start, x))
    && (forall x | x in found :: x in bad && Reaches(g, start, x))
    && (forall x | x in bad && Reaches(g, start, x) :: x in found || BelowStack(g, stack, x) || AtOrBelow(g, todo, x))
    && exp in g && FromStart(g, start, exp) && todo <= g[exp]
  }

  lemma SearchingAtFirst<T>(g: Graph<T>, start: T, bad: set<T>)
    requires start in g
    ensures Searching(g, start, bad, {}, [start])
  {
    assert [start][0] == start;
  }

  lemma SearchingPops<T>(g: Graph<T>, start: T, bad: set<T>, found: set<T>, stack: seq<T>)
    requires Searching(g, start, bad, found, stack) && stack != []
    ensures var n := |stack| - 1;
            stack[n] in g && SearchingBelow(g, start, bad, found, stack[..n], stack[n], g[stack[n]])
  {
    var n := |stack| - 1;
    forall x | x in bad && Reaches(g, start, x) && x !in found
      ensures BelowStack(g, stack[..n], x) || AtOrBelow(g, g[stack[n]], x)
    {
      var i :| 0 <= i < |stack| && Reaches(g, stack[i], x);
      if i < n {
        assert stack[..n][i] == stack[i];
      } else {
        var b := ReachesByFront(g, stack[n], x);
      }
    }
  }

  /** Visiting one prerequisite: it is found if bad, and pushed if it has to be
      looked into; what is not pushed must have nothing bad below. */
  lemma SearchingVisits<T>(g: Graph<T>, start: T, bad: set<T>, found: set<T>, stack: seq<T>,
                           exp: T, todo: set<T>, next: T, push: bool)
    requires Closed(g) && SearchingBelow(g, start, bad, found, stack, exp, todo) && next in todo
    requires push || forall x | x in bad :: !Reaches(g, next, x)
    ensures next in g && Reaches(g, start, next)
    ensures SearchingBelow(g, start, bad, if next in bad then found + {next} else found,
                           if push then stack + [next] else stack, exp, todo - {next})
  {
    if exp == start {
      ReachesDirectly(g, start, next);
    } else {
      ReachesOn(g, start, exp, next);
    }
    var stack' := if push then stack + [next] else stack;
    forall x | x in bad && Reaches(g, start, x) && x !in found && x != next
      ensures BelowStack(g, stack', x) || AtOrBelow(g, todo - {next}, x)
    {
      if BelowStack(g, stack, x) {
        var i :| 0 <= i < |stack| && Reaches(g, stack[i], x);
        assert stack'[i] == stack[i];
      } else {
        var y :| y in todo && (y == x || Reaches(g, y, x));
        if y == next {
          assert push && stack'[|stack|] == next;
        } else {
          assert y in todo - {next};
        }
      }
    }
  }

  lemma SearchingDone<T>(g: Graph<T>, start: T, bad: set<T>, found: set<T>, stack: seq<T>, exp: T)
    requires SearchingBelow(g, start, bad, found, stack, exp, {})
    ensures Searching(g, start, bad, found, stack)
  {
  }

  lemma SearchingEnds<T>(g: Graph<T>, start: T, bad: set<T>, found: set<T>)
    requires Searching(g, start, bad, found, [])
    ensures forall x :: x in found <==> x in bad && Reaches(g, start, x)
  {
  }

  lemma NothingBelow<T>(g: Graph<T>, a: T, b: T)
    requires a in g && g[a] == {}
    ensures !Reaches(g, a, b)
  {
    if Reaches(g, a, b) {
      var c := ReachesByFront(g, a, b);
    }
  }

  /** Below the start, a node that is not to be expanded has nothing below it. */
  lemma BareBelowStart<T>(g: Graph<T>, rank: map<T, nat>, idle: set<T>, start: T, exp: T, next: T)
    requires Closed(g) && Ranked(g, rank) && start in g && exp in g && next in g[exp]
    requires exp in idle + {start} && FromStart(Expanded(g, idle + {start}), start, exp)
    ensures next in g && next in rank && next != start
    ensures next !in idle ==> forall x :: !Reaches(Expanded(g, idle + {start}), next, x)
  {
    var e := Expanded(g, idle + {start});
    assert Ranked(e, rank) by {
      assert forall x, y | x in e && y in e[x] :: y in g[x];
    }
    if exp == start {
      ReachesDirectly(e, start, next);
    } else {
      ReachesOn(e, start, exp, next);
    }
    ReachesLowersRank(e, rank, start, next);
    forall x | next !in idle
      ensures !Reaches(e, next, x)
    {
      NothingBelow(e, next, x);
    }
  }

  lemma ExpandedIsClosed<T>(g: Graph<T>, expand: set<T>)
    requires Closed(g)
    ensures Closed(Expanded(g, expand))
  {
    forall x, y | x in g && y in Expanded(g, expand)[x]
      ensures y in g
    {
      assert y in g[x];
    }
  }

  lemma BelowIsFromStart<T>(g: Graph<T>, start: T, bad: set<T>, found: set<T>, stack: seq<T>, exp: T, todo: set<T>)
    requires SearchingBelow(g, start, bad, found, stack, exp, todo)
    ensures FromStart(g, start, exp)
  {
  }

  lemma {:induction false} StepsWhereExpanded<T>(g: Graph<T>, expand: set<T>, a: T, b: T, n: nat)
    requires b in Steps(Expanded(g, expand), a, n)
    ensures b in Steps(g, a, n)
  {
    if n > 0 {
      var x :| x in Steps(Expanded(g, expand), a, n - 1) && x in g && b in Expanded(g, expand)[x];
      StepsWhereExpanded(g, expand, a, x, n - 1);
    }
  }

  lemma {:induction false} SearchFindsOne<T>(g: Graph<T>, expand: set<T>, bad: set<T>, a: T, b: T, n: nat)
      returns (found: T)
    requires Closed(g) && a in g && a in expand
    requires forall x, y | x in g && x !in expand && x !in bad && y in bad :: !Reaches(g, x, y)
    requires n > 0 && b in bad && b in Steps(g, a, n)
    ensures found in bad && Reaches(Expanded(g, expand), a, found)
  {
    var e := Expanded(g, expand);
    var c := StepsHaveFront(g, a, b, n);
    assert c in e[a];
    if c in bad {
      ReachesDirectly(e, a, c);
      found := c;
    } else {
      assert Steps(g, c, 0) == {c};
      assert Reaches(g, c, b);
      found := SearchFindsOne(g, expand, bad, c, b, n - 1);
      ReachesThrough(e, a, c, found);
    }
  }

  /** Not looking below some nodes misses nothing bad altogether, if there is nothing
      bad below the good ones among them. */
  lemma SearchMissesNone<T>(g: Graph<T>, expand: set<T>, bad: set<T>, a: T)
    requires Closed(g) && a in g && a in expand
    requires forall x, y | x in g && x !in expand && x !in bad && y in bad :: !Reaches(g, x, y)
    ensures (forall x | x in bad :: !Reaches(g, a, x)) <==> (forall x | x in bad :: !Reaches(Expanded(g, expand), a, x))
  {
    forall b | b in bad && Reaches(g, a, b)
      ensures exists x :: x in bad && Reaches(Expanded(g, expand), a, x)
    {
      var n: nat :| n > 0 && b in Steps(g, a, n);
      var x := SearchFindsOne(g, expand, bad, a, b, n);
    }
    forall b | b in bad && Reaches(Expanded(g, expand), a, b)
      ensures Reaches(g, a, b)
    {
      var n: nat :| n > 0 && b in Steps(Expanded(g, expand), a, n);
      StepsWhereExpanded(g, expand, a, b, n);
    }
  }

  // ---------- termination without a visited set ----------

  ghost function Power(b: nat, n: nat): nat {
    if n == 0 then 1 else b * Power(b, n - 1)
  }

  /** A bound on the pushes that a node can still cause. */
  ghost function Load<T>(b: nat, rank: map<T, nat>, stack: seq<T>): nat
    requires forall x | x in stack :: x in rank
  {
    if stack == [] then 0
    else Load(b, rank, stack[..|stack| - 1]) + Power(b, rank[stack[|stack| - 1]])
  }

  lemma {:induction false} PowerMonotone(b: nat, m: nat, n: nat)
    requires b > 0 && m <= n
    ensures 0 < Power(b, m) <= Power(b, n)
    decreases n
  {
    if m < n {
      PowerMonotone(b, m, n - 1);
      Scale(b, Power(b, n - 1));
    } else if n > 0 {
      PowerMonotone(b, n - 1, n - 1);
      Scale(b, Power(b, n - 1));
    }
  }

  lemma Scale(b: nat, p: nat)
    requires b > 0
    ensures p <= b * p
  {
    assert b * p == p + (b - 1) * p;
  }

  /** What expanding `exp` may still push weighs less than `exp` did. */
  ghost predicate Lighter<T>(b: nat, rank: map<T, nat>, stack: seq<T>, exp: T, todo: set<T>, before: nat)
  {
    && exp in rank && (forall x | x in stack :: x in rank)
    && (forall y | y in todo :: y in rank && rank[y] < rank[exp])
    && Load(b, rank, stack) + |todo| * (if rank[exp] > 0 then Power(b, rank[exp] - 1) else 0) < before
  }

  lemma FewPrerequisites<T>(g: Graph<T>, rank: map<T, nat>, exp: T)
    requires exp in g && Closed(g) && Ranked(g, rank)
    ensures exp in rank && |g[exp]| < |g.Keys| + 1
    ensures forall y | y in g[exp] :: y in rank && rank[y] < rank[exp]
  {
    assert forall y | y in g[exp] :: y in g;
    SubsetSize(g[exp], g.Keys);
  }

  lemma LighterMeans<T>(b: nat, rank: map<T, nat>, stack: seq<T>, exp: T, todo: set<T>, before: nat)
    requires Lighter(b, rank, stack, exp, todo, before)
    ensures (forall x | x in stack :: x in rank) && Load(b, rank, stack) < before
  {
  }

  lemma LighterAtFirst<T>(b: nat, rank: map<T, nat>, stack: seq<T>, todo: set<T>)
    requires stack != [] && forall x | x in stack :: x in rank
    requires |todo| < b
    requires forall y | y in todo :: y in rank && rank[y] < rank[stack[|stack| - 1]]
    ensures Lighter(b, rank, stack[..|stack| - 1], stack[|stack| - 1], todo, Load(b, rank, stack))
  {
    var exp := stack[|stack| - 1];
    PowerMonotone(b, rank[exp], rank[exp]);
    if rank[exp] > 0 {
      var p := Power(b, rank[exp] - 1);
      PowerMonotone(b, rank[exp] - 1, rank[exp] - 1);
      Fewer(|todo|, b, p);
    }
  }

  lemma Fewer(m: nat, n: nat, p: nat)
    requires m < n && p > 0
    ensures m * p < n * p
  {
    assert n * p == m * p + (n - m) * p;
    Scale(n - m, p);
  }

  lemma LighterAfter<T>(b: nat, rank: map<T, nat>, stack: seq<T>, exp: T, todo: set<T>, before: nat, next: T,
                        push: bool)
    requires b > 0 && Lighter(b, rank, stack, exp, todo, before) && next in todo
    ensures Lighter(b, rank, if push then stack + [next] else stack, exp, todo - {next}, before)
  {
    var p := Power(b, rank[exp] - 1);
    PowerMonotone(b, rank[next], rank[exp] - 1);
    assert |todo - {next}| == |todo| - 1;
    assert |todo| * p == (|todo| - 1) * p + p;
    if push {
      assert (stack + [next])[..|stack|] == stack;
    }
  }
}
