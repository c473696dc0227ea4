/** The connectivity matrix between elements (left) and matchers (right). */
module MatchMatrices {
  import opened BipartiteGraph

  /** The matrix read as a binary number whose first cell is the lowest bit. */
  ghost function Number(cells: seq<bool>): nat {
    if cells == [] then 0 else (if cells[0] then 1 else 0) + 2 * Number(cells[1..])
  }

  ghost function Pow2(n: nat): nat {
    if n == 0 then 1 else 2 * Pow2(n - 1)
  }

  /** Distinct matrices of one shape have distinct numbers, all below 2^size. */
  lemma {:induction false} NumberIsOneToOne(a: seq<bool>, b: seq<bool>)
    requires |a| == |b|
    ensures Number(a) == Number(b) <==> a == b
    ensures Number(a) < Pow2(|a|)
  {
    if a != [] {
      NumberIsOneToOne(a[1..], b[1..]);
      assert a == [a[0]] + a[1..] && b == [b[0]] + b[1..];
    }
  }

  lemma {:induction false} NumberOfAllSet(cells: seq<bool>)
    requires forall i | 0 <= i < |cells| :: cells[i]
    ensures Number(cells) + 1 == Pow2(|cells|)
  {
    if cells != [] {
      NumberOfAllSet(cells[1..]);
    }
  }

  lemma {:induction false} NumberOfAllClear(cells: seq<bool>)
    requires forall i | 0 <= i < |cells| :: !cells[i]
    ensures Number(cells) == 0
  {
    if cells != [] {
      NumberOfAllClear(cells[1..]);
    }
  }

  lemma {:induction false} OnlyClearIsZero(cells: seq<bool>)
    requires Number(cells) == 0
    ensures forall i | 0 <= i < |cells| :: !cells[i]
  {
    if cells != [] {
      OnlyClearIsZero(cells[1..]);
    }
  }

  lemma {:induction false} NumberBound(cells: seq<bool>)
    ensures Number(cells) < Pow2(|cells|)
  {
    if cells != [] {
      NumberBound(cells[1..]);
    }
  }

  /** Clearing the low ones and setting the first zero adds one. */
  lemma {:induction false} CarryAddsOne(a: seq<bool>, b: seq<bool>, k: nat)
    requires k < |a| == |b| && !a[k] && b[k]
    requires forall i | 0 <= i < k :: a[i] && !b[i]
    requires forall i | k < i < |a| :: a[i] == b[i]
    ensures Number(b) == Number(a) + 1
  {
    if k == 0 {
      assert a[1..] == b[1..];
    } else {
      CarryAddsOne(a[1..], b[1..], k - 1);
    }
  }

  lemma NextRow(ilhs: nat, rows: nat, columns: nat)
    requires ilhs < rows
    ensures (ilhs + 1) * columns == ilhs * columns + columns <= rows * columns
  {
    assert rows * columns == (ilhs + 1) * columns + (rows - ilhs - 1) * columns;
  }

  lemma RowBound(ilhs: nat, irhs: nat, rows: nat, columns: nat)
    requires ilhs < rows && irhs < columns
    ensures ilhs * columns + irhs < rows * columns
  {
    NextRow(ilhs, rows, columns);
  }

  lemma DistinctCells(l: nat, r: nat, l': nat, r': nat, columns: nat)
    requires r < columns && r' < columns
    requires l * columns + r == l' * columns + r'
    ensures l == l' && r == r'
  {
    if l < l' {
      RowBound(l, r, l', columns);
    } else if l > l' {
      RowBound(l', r', l, columns);
    }
  }

  class MatchMatrix {
    const numElements: nat
    const numMatchers: nat
    const matched: array<bool>

    ghost predicate Valid() {
      matched.Length == numElements * numMatchers
    }

    constructor (numElements: nat, numMatchers: nat)
      ensures Valid() && fresh(matched)
      ensures this.numElements == numElements && this.numMatchers == numMatchers
      ensures forall i | 0 <= i < matched.Length :: !matched[i]
    {
      this.numElements := numElements;
      this.numMatchers := numMatchers;
      matched := new bool[numElements * numMatchers](_ => false);
    }

    function SpaceIndex(ilhs: nat, irhs: nat): (k: nat)
      requires Valid() && ilhs < numElements && irhs < numMatchers
      ensures k < matched.Length
    {
      RowBound(ilhs, irhs, numElements, numMatchers);
      ilhs * numMatchers + irhs
    }

    predicate HasEdge(ilhs: nat, irhs: nat)
      requires Valid() && ilhs < numElements && irhs < numMatchers
      reads matched
    {
      matched[SpaceIndex(ilhs, irhs)]
    }

    ghost function Edges(): (edges: set<Edge>)
      requires Valid()
      reads matched
    {
      set l, r | 0 <= l < numElements && 0 <= r < numMatchers && HasEdge(l, r) :: (l, r)
    }

    lemma EdgesInRange()
      requires Valid()
      ensures forall e | e in Edges() :: 0 <= e.0 < numElements && 0 <= e.1 < numMatchers
    {
    }

    lemma EdgeIs(ilhs: nat, irhs: nat)
      requires Valid() && ilhs < numElements && irhs < numMatchers
      ensures (ilhs, irhs) in Edges() <==> HasEdge(ilhs, irhs)
    {
    }

    /** Writes one edge and no other. */
    method SetEdge(ilhs: nat, irhs: nat, b: bool)
      requires Valid() && ilhs < numElements && irhs < numMatchers
      modifies matched
      ensures Edges() == if b then old(Edges()) + {(ilhs, irhs)} else old(Edges()) - {(ilhs, irhs)}
    {
      matched[SpaceIndex(ilhs, irhs)] := b;
      forall l, r | 0 <= l < numElements && 0 <= r < numMatchers
        ensures HasEdge(l, r) == if (l, r) == (ilhs, irhs) then b else old(HasEdge(l, r))
      {
        if SpaceIndex(l, r) == SpaceIndex(ilhs, irhs) {
          DistinctCells(l, r, ilhs, irhs, numMatchers);
        }
      }
    }

    /** Adds one to the matrix seen as a number; false says that it wrapped to the
        empty graph. */
    method NextGraph() returns (more: bool)
      requires Valid()
      modifies matched
      ensures more ==> Number(matched[..]) == old(Number(matched[..])) + 1
      ensures !more ==> Number(matched[..]) == 0
                        && old(Number(matched[..])) + 1 == Pow2(matched.Length)
    {
      ghost var before, row := matched[..], 0;
      var ilhs := 0;
      while ilhs < numElements
        invariant 0 <= ilhs <= numElements
        invariant row == ilhs * numMatchers <= matched.Length
        invariant forall i | 0 <= i < row :: before[i] && !matched[i]
        invariant forall i | row <= i < matched.Length :: matched[i] == before[i]
      {
        var irhs := 0;
        NextRow(ilhs, numElements, numMatchers);
        while irhs < numMatchers
          invariant 0 <= irhs <= numMatchers
          invariant row + irhs <= matched.Length
          invariant forall i | 0 <= i < row + irhs :: before[i] && !matched[i]
          invariant forall i | row + irhs <= i < matched.Length :: matched[i] == before[i]
        {
          var b := SpaceIndex(ilhs, irhs);
          if !matched[b] {
            matched[b] := true;
            CarryAddsOne(before, matched[..], b);
            return true;
          }
          matched[b] := false;
          irhs := irhs + 1;
        }
        ilhs := ilhs + 1;
        row := row + numMatchers;
      }
      NumberOfAllSet(before);
      NumberOfAllClear(matched[..]);
      return false;
    }

    /** From the empty graph on, repeating the step visits every configuration, each at
        the place of its number, and ends at the empty graph again. */
    method AllGraphs() returns (visited: seq<seq<bool>>)
      requires Valid() && forall i | 0 <= i < matched.Length :: !matched[i]
      modifies matched
      ensures |visited| == Pow2(matched.Length)
      ensures forall cells: seq<bool> | |cells| == matched.Length ::
                Number(cells) < |visited| && visited[Number(cells)] == cells
      ensures forall i | 0 <= i < |visited| :: |visited[i]| == matched.Length && Number(visited[i]) == i
      ensures forall i | 0 <= i < matched.Length :: !matched[i]
    {
      NumberOfAllClear(matched[..]);
      NumberBound(matched[..]);
      visited := [matched[..]];
      var more := true;
      while more
        invariant |visited| > 0
        invariant forall i | 0 <= i < |visited| :: |visited[i]| == matched.Length && Number(visited[i]) == i
        invariant if more then visited[|visited| - 1] == matched[..] && |visited| <= Pow2(matched.Length)
                  else Number(matched[..]) == 0 && |visited| == Pow2(matched.Length)
        decreases if more then 1 else 0, Pow2(matched.Length) - |visited|
      {
        more := NextGraph();
        NumberBound(matched[..]);
        if more {
          visited := visited + [matched[..]];
        }
      }
      forall cells: seq<bool> | |cells| == matched.Length
        ensures Number(cells) < |visited| && visited[Number(cells)] == cells
      {
        NumberBound(cells);
        NumberIsOneToOne(cells, visited[Number(cells)]);
      }
      OnlyClearIsZero(matched[..]);
    }
  }
}
