/** The random number generator and the in-place shuffle. */
module Shuffles {
  import opened MachineWords

  // ---------- random numbers ----------

  const MAX_RANGE := 0x8000_0000

  /** The generator's next state; the cast to 32 bits comes before the remainder. */
  function NextState(state: nat): (next: nat)
    ensures next < MAX_RANGE
  {
    (1103515245 * state + 12345) % UINT32 % MAX_RANGE
  }

  lemma NarrowingIsHarmless(x: int)
    ensures x % UINT32 % MAX_RANGE == x % MAX_RANGE
  {
  }

  lemma SameRemainder(x: int, y: int) returns (k: int)
    requires x % MAX_RANGE == y % MAX_RANGE
    ensures x - y == MAX_RANGE * k
  {
    k := x / MAX_RANGE - y / MAX_RANGE;
  }

  /** 1857678181 is the inverse of the multiplier modulo the range. */
  lemma MultiplyBack(d: int, k: int) returns (j: int)
    requires 1103515245 * d == MAX_RANGE * k
    ensures d == MAX_RANGE * j
  {
    j := 1857678181 * k - 954594553 * d;
  }

  /** Distinct states never run together: the multiplier is odd. */
  lemma StatesStayDistinct(a: nat, b: nat)
    requires a < MAX_RANGE && b < MAX_RANGE && NextState(a) == NextState(b)
    ensures a == b
  {
    var x, y := 1103515245 * a + 12345, 1103515245 * b + 12345;
    NarrowingIsHarmless(x);
    NarrowingIsHarmless(y);
    var k := SameRemainder(x, y);
    var j := MultiplyBack(a - b, k);
  }

  class Random {
    var state: nat

    constructor (seed: nat)
      requires seed < UINT32
      ensures state == seed
    {
      state := seed;
    }

    /** A number in [0, range). */
    method Generate(range: nat) returns (r: nat)
      requires 0 < range <= MAX_RANGE
      modifies this
      ensures r < range
      ensures state == NextState(old(state)) && r == state % range
    {
      state := NextState(state);
      r := state % range;
    }
  }

  // ---------- what a shuffle computes ----------

  /** One choice for each step of the shuffle, from the whole range down to two places. */
  ghost predicate AreChoices(choices: seq<nat>, width: nat) {
    && |choices| == (if width < 2 then 0 else width - 1)
    && forall k | 0 <= k < |choices| :: choices[k] < width - k
  }

  function Exchange<T>(v: seq<T>, i: nat, j: nat): (w: seq<T>)
    requires i < |v| && j < |v|
    ensures |w| == |v|
  {
    v[i := v[j]][j := v[i]]
  }

  ghost function Shuffled<T>(v: seq<T>, begin: nat, width: nat, choices: seq<nat>): (w: seq<T>)
    requires begin + width <= |v| && AreChoices(choices, width)
    ensures |w| == |v|
    decreases width
  {
    if width < 2 then v
    else Shuffled(Exchange(v, begin + choices[0], begin + width - 1), begin, width - 1, choices[1..])
  }

  /** The choices that the generator makes. */
  ghost function Draws(state: nat, width: nat): (choices: seq<nat>)
    ensures AreChoices(choices, width)
    decreases width
  {
    if width < 2 then []
    else [NextState(state) % width] + Draws(NextState(state), width - 1)
  }

  /** The generator's state after those choices. */
  ghost function StateAfter(state: nat, width: nat): nat
    decreases width
  {
    if width < 2 then state else StateAfter(NextState(state), width - 1)
  }

  /** The generator's state after n steps. */
  ghost function Steps(state: nat, n: nat): nat {
    if n == 0 then state else NextState(Steps(state, n - 1))
  }

  lemma {:induction false} FirstStep(state: nat, n: nat)
    ensures Steps(NextState(state), n) == Steps(state, n + 1)
  {
    hide NextState;
    if n == 0 {
      assert Steps(state, 1) == NextState(Steps(state, 0));
    } else {
      FirstStep(state, n - 1);
    }
  }

  /** Each choice takes one step of the generator and is the remainder of its new state by
      the number of places that are still open. */
  lemma {:induction false} DrawsAreRemainders(state: nat, width: nat)
    ensures forall k | 0 <= k < |Draws(state, width)| ::
              Draws(state, width)[k] == Steps(state, k + 1) % (width - k)
    ensures StateAfter(state, width) == Steps(state, |Draws(state, width)|)
    decreases width
  {
    hide NextState;
    if width >= 2 {
      var next, draws := NextState(state), Draws(state, width);
      DrawsAreRemainders(next, width - 1);
      FirstStep(state, |draws| - 1);
      assert draws[1..] == Draws(next, width - 1);
      forall k | 0 <= k < |draws| ensures draws[k] == Steps(state, k + 1) % (width - k) {
        if k == 0 {
          assert Steps(state, 1) == NextState(Steps(state, 0));
        } else {
          FirstStep(state, k);
          assert draws[k] == Draws(next, width - 1)[k - 1];
        }
      }
    }
  }

  ghost predicate SameOutside<T(!new)>(v: seq<T>, w: seq<T>, begin: nat, end: nat) {
    && |v| == |w| && forall k | 0 <= k < |v| && !(begin <= k < end) :: v[k] == w[k]
  }

  lemma ExchangeKeeps<T(!new)>(v: seq<T>, i: nat, j: nat)
    requires i < |v| && j < |v|
    ensures multiset(Exchange(v, i, j)) == multiset(v)
    ensures Exchange(v, i, j)[i] == v[j] && Exchange(v, i, j)[j] == v[i]
    ensures forall k | 0 <= k < |v| && k != i && k != j :: Exchange(v, i, j)[k] == v[k]
  {
  }

  /** A shuffle rearranges its range and touches nothing else. */
  lemma {:induction false} ShuffleRearranges<T(!new)>(v: seq<T>, begin: nat, width: nat, choices: seq<nat>)
    requires begin + width <= |v| && AreChoices(choices, width)
    ensures multiset(Shuffled(v, begin, width, choices)) == multiset(v)
    ensures SameOutside(v, Shuffled(v, begin, width, choices), begin, begin + width)
    decreases width
  {
    if width >= 2 {
      hide Exchange;
      var w := Exchange(v, begin + choices[0], begin + width - 1);
      ExchangeKeeps(v, begin + choices[0], begin + width - 1);
      ShuffleRearranges(w, begin, width - 1, choices[1..]);
    }
  }

  // ---------- every arrangement, once each ----------

  ghost predicate Distinct<T(!new)>(v: seq<T>) {
    forall i, j | 0 <= i < j < |v| :: v[i] != v[j]
  }

  lemma Cancel<T>(a: multiset<T>, v: multiset<T>, w: multiset<T>, c: multiset<T>)
    requires a + v + c == a + w + c
    ensures v == w
  {
    assert v == (a + v + c) - a - c;
    assert w == (a + w + c) - a - c;
  }

  lemma SameMembers<T(!new)>(v: seq<T>, w: seq<T>, begin: nat, end: nat)
    requires begin <= end <= |v| && SameOutside(v, w, begin, end) && multiset(v) == multiset(w)
    ensures multiset(v[begin..end]) == multiset(w[begin..end])
  {
    var a, c := v[..begin], v[end..];
    assert a == w[..begin] && c == w[end..];
    assert v == a + v[begin..end] + c;
    assert w == a + w[begin..end] + c;
    Cancel(multiset(a), multiset(v[begin..end]), multiset(w[begin..end]), multiset(c));
  }

  /** The element wanted in the last place is somewhere in the range. */
  lemma FindLast<T(!new)>(v: seq<T>, begin: nat, width: nat, target: seq<T>) returns (c: nat)
    requires begin + width <= |v| && width > 0
    requires SameOutside(v, target, begin, begin + width) && multiset(v) == multiset(target)
    ensures c < width && v[begin + c] == target[begin + width - 1]
  {
    SameMembers(v, target, begin, begin + width);
    var range, x := v[begin..begin + width], target[begin + width - 1];
    assert x == target[begin..begin + width][width - 1];
    assert x in multiset(range);
    c :| c < width && range[c] == x;
  }

  /** Some choices lead to any arrangement of the range. */
  lemma {:induction false} EveryArrangementIsReached<T(!new)>(v: seq<T>, begin: nat, width: nat, target: seq<T>)
      returns (choices: seq<nat>)
    requires begin + width <= |v|
    requires SameOutside(v, target, begin, begin + width) && multiset(v) == multiset(target)
    ensures AreChoices(choices, width) && Shuffled(v, begin, width, choices) == target
    decreases width
  {
    hide Exchange;
    choices := [];
    if width > 0 {
      var last := begin + width - 1;
      var c := FindLast(v, begin, width, target);
      if width > 1 {
        ExchangeKeeps(v, begin + c, last);
        var w := Exchange(v, begin + c, last);
        var rest := EveryArrangementIsReached(w, begin, width - 1, target);
        choices := [c] + rest;
        assert choices[1..] == rest;
      }
    }
  }

  /** The first choice says which element comes to the last place of the range. */
  lemma LastIsFixed<T(!new)>(v: seq<T>, begin: nat, width: nat, choices: seq<nat>)
    requires begin + width <= |v| && AreChoices(choices, width) && width >= 2
    ensures Shuffled(v, begin, width, choices)[begin + width - 1] == v[begin + choices[0]]
  {
    hide Exchange;
    var w := Exchange(v, begin + choices[0], begin + width - 1);
    ExchangeKeeps(v, begin + choices[0], begin + width - 1);
    ShuffleRearranges(w, begin, width - 1, choices[1..]);
  }

  lemma ExchangeDistinct<T(!new)>(v: seq<T>, i: nat, j: nat)
    requires i < |v| && j < |v| && Distinct(v)
    ensures Distinct(Exchange(v, i, j))
  {
  }

  /** Only one list of choices leads there, when no two elements are equal. */
  lemma {:induction false} ChoicesAreUnique<T(!new)>(v: seq<T>, begin: nat, width: nat, a: seq<nat>, b: seq<nat>)
    requires begin + width <= |v| && Distinct(v) && AreChoices(a, width) && AreChoices(b, width)
    requires Shuffled(v, begin, width, a) == Shuffled(v, begin, width, b)
    ensures a == b
    decreases width
  {
    if width >= 2 {
      hide Exchange;
      LastIsFixed(v, begin, width, a);
      LastIsFixed(v, begin, width, b);
      assert a[0] == b[0];
      ExchangeDistinct(v, begin + a[0], begin + width - 1);
      ChoicesAreUnique(Exchange(v, begin + a[0], begin + width - 1), begin, width - 1, a[1..], b[1..]);
      assert a == [a[0]] + a[1..] && b == [b[0]] + b[1..];
    }
  }

  // ---------- the shuffle ----------

  class Vector<T> {
    var items: seq<T>

    constructor ()
      ensures items == []
    {
      items := [];
    }
  }

  method ShuffleRange<T>(random: Random, begin: nat, end: nat, v: Vector<T>)
    requires begin <= end <= |v.items| < MAX_RANGE
    modifies random, v
    ensures v.items == Shuffled(old(v.items), begin, end - begin, Draws(old(random.state), end - begin))
    ensures random.state == StateAfter(old(random.state), end - begin)
  {
    hide Exchange;
    var rangeWidth := end - begin;
    while rangeWidth >= 2
      invariant 0 <= rangeWidth <= end - begin && |v.items| == |old(v.items)|
      invariant Shuffled(v.items, begin, rangeWidth, Draws(random.state, rangeWidth))
             == Shuffled(old(v.items), begin, end - begin, Draws(old(random.state), end - begin))
      invariant StateAfter(random.state, rangeWidth) == StateAfter(old(random.state), end - begin)
    {
      ghost var choices := Draws(random.state, rangeWidth);
      var lastInRange := begin + rangeWidth - 1;
      var selected := random.Generate(rangeWidth);
      selected := begin + selected;
      assert choices[1..] == Draws(random.state, rangeWidth - 1);
      v.items := Exchange(v.items, selected, lastInRange);
      rangeWidth := rangeWidth - 1;
    }
  }

  method Shuffle<T>(random: Random, v: Vector<T>)
    requires |v.items| < MAX_RANGE
    modifies random, v
    ensures v.items == Shuffled(old(v.items), 0, |old(v.items)|, Draws(old(random.state), |old(v.items)|))
    ensures random.state == StateAfter(old(random.state), |old(v.items)|)
  {
    ShuffleRange(random, 0, |v.items|, v);
  }
}
