/**
  Arrays in memory, batches of rows that share them, and the rows a run of reads and skips should see.
  Both deduplicating writers take such batches and both readers hand them out.
 */
module Vectors {
  import opened Wrappers
  import opened Sequences
  import opened OrderedRange

  /** Elements are only compared for equality. */
  type Element = int

  function First(elements: seq<Element>, n: nat): seq<Element>
  {
    if n <= |elements| then elements[..n] else elements
  }

  /** Array `k` is the `sizes[k]` elements from `offsets[k]` on. */
  datatype ArrayVector = ArrayVector(offsets: seq<nat>, sizes: seq<nat>, elements: seq<Element>)
  {
    predicate Valid()
    {
      |offsets| == |sizes| && forall k :: 0 <= k < |sizes| ==> offsets[k] + sizes[k] <= |elements|
    }

    function At(k: nat): seq<Element>
      requires Valid() && k < |sizes|
    {
      elements[offsets[k]..offsets[k] + sizes[k]]
    }

    /** Array `k` as far as its elements are there. */
    function Item(k: nat): seq<Element>
      requires k < |sizes| == |offsets|
    {
      if offsets[k] <= |elements| then First(elements[offsets[k]..], sizes[k]) else []
    }
  }

  /** A batch of rows: each picks one of the base arrays.  A flat vector is its own base. */
  datatype Batch = Batch(indices: seq<Option<nat>>, base: ArrayVector)
  {
    predicate Valid()
    {
      base.Valid() && forall k :: 0 <= k < |indices| && indices[k].Some? ==> indices[k].value < |base.sizes|
    }

    function Rows(): (rows: seq<Option<seq<Element>>>)
      requires Valid()
      ensures |rows| == |indices|
    {
      seq(|indices|, k requires 0 <= k < |indices| =>
        if indices[k].None? then None else Some(base.At(indices[k].value)))
    }
  }

  /** The elements at the given positions. */
  function Gather(elements: seq<Element>, positions: seq<nat>): (r: seq<Element>)
    ensures |r| == |positions|
  {
    seq(|positions|, i requires 0 <= i < |positions| => if positions[i] < |elements| then elements[positions[i]] else 0)
  }

  lemma GatherMore(base: ArrayVector, positions: seq<nat>, index: nat)
    requires base.Valid() && index < |base.sizes|
    ensures
      var visited := positions + Interval(base.offsets[index], base.sizes[index]);
      Gather(base.elements, visited) == Gather(base.elements, positions) + base.At(index)
    ensures base.sizes[index] == 0 ==>
      Gather(base.elements, positions) + base.At(index) == Gather(base.elements, positions)
  {
  }

  lemma NothingGathered(elementsData: seq<Element>)
    ensures Gather([], []) == []
    ensures forall e: seq<Element> :: Gather(e, []) == []
    ensures elementsData + [] == elementsData
  {
  }

  lemma AtLength(base: ArrayVector, index: nat)
    requires base.Valid() && index < |base.sizes|
    ensures |base.At(index)| == base.sizes[index]
  {
  }

  /** Element-wise comparison of two arrays of the same length. */
  predicate SameElements(base: ArrayVector, index: nat, other: seq<Element>)
    requires base.Valid() && index < |base.sizes| && base.sizes[index] == |other|
    ensures SameElements(base, index, other) == (base.At(index) == other)
  {
    var row := base.At(index);
    assert (forall k :: 0 <= k < |other| ==> row[k] == other[k]) ==> row == other;
    forall k :: 0 <= k < |other| ==> row[k] == other[k]
  }

  lemma FirstOfItem(values: ArrayVector, k: nat)
    requires k < |values.sizes| == |values.offsets|
    ensures First(values.Item(k), values.sizes[k]) == values.Item(k)
  {
  }

  lemma ItemOfPrefix(elements: seq<Element>, more: seq<Element>, offset: nat, size: nat)
    requires offset + size <= |elements|
    ensures First((elements + more)[offset..], size) == elements[offset..offset + size]
  {
  }

  /** The rows a dictionary stands for. */
  method Unwrap(indices: seq<int>, values: ArrayVector, nonNulls: seq<bool>) returns (rows: seq<Option<seq<Element>>>)
    requires |indices| == |nonNulls| && |values.offsets| == |values.sizes|
    requires forall k :: 0 <= k < |indices| && nonNulls[k] ==> 0 <= indices[k] < |values.sizes|
    ensures |rows| == |indices|
    ensures forall k :: 0 <= k < |rows| ==> rows[k] == if nonNulls[k] then Some(values.Item(indices[k])) else None
  {
    rows := seq(|indices|,
      k requires 0 <= k < |indices| => if nonNulls[k] then Some(values.Item(indices[k])) else None);
  }

  /** The rows of a read: `scatter` is set where the next row goes, the other positions are null. */
  function Spread<T>(offsets: seq<Option<T>>, scatter: seq<bool>): (rows: seq<Option<T>>)
    requires |offsets| == CountTrue(scatter)
    ensures |rows| == |scatter|
  {
    Merge(scatter, offsets, Repeat(None, |scatter| - |offsets|))
  }

  lemma SpreadAll<T>(rows: seq<Option<T>>)
    ensures CountTrue(Repeat(true, |rows|)) == |rows| && Spread(rows, Repeat(true, |rows|)) == rows
  {
    hide CountTrue, Merge, Rank;
    var scatter := Repeat(true, |rows|);
    RankRepeat(|rows|, |rows|);
    RankAll(scatter);
    forall k | 0 <= k < |rows| ensures Spread(rows, scatter)[k] == rows[k] {
      RankRepeat(|rows|, k);
      MergeAt(scatter, rows, [], k);
    }
  }

  predicate AllNull<T>(rows: seq<Option<T>>)
  {
    forall k :: 0 <= k < |rows| ==> rows[k].None?
  }

  lemma SpreadNulls<T>(part: seq<Option<T>>, scatter: seq<bool>)
    requires |part| == CountTrue(scatter)
    ensures AllNull(part) <==> AllNull(Spread(part, scatter))
    ensures forall k :: 0 <= k < |scatter| && Spread(part, scatter)[k].Some? ==>
      exists j :: 0 <= j < |part| && part[j] == Spread(part, scatter)[k]
  {
    hide CountTrue, Merge, Rank;
    var spread := Spread(part, scatter);
    forall k | 0 <= k < |scatter| && spread[k].Some?
      ensures exists j :: 0 <= j < |part| && part[j] == spread[k]
    {
      MergeAt(scatter, part, Repeat(None, |scatter| - |part|), k);
      assert part[Rank(scatter, k)] == spread[k];
    }
    forall j | 0 <= j < |part| && part[j].Some? ensures !AllNull(spread) {
      var k := PositionOf(scatter, j);
      MergeAt(scatter, part, Repeat(None, |scatter| - |part|), k);
      assert spread[k].Some?;
    }
  }

  /** Every row has a position. */
  lemma {:induction false} PositionOf(scatter: seq<bool>, j: nat) returns (k: nat)
    requires j < CountTrue(scatter)
    ensures k < |scatter| && scatter[k] && Rank(scatter, k) == j
  {
    k := |scatter| - 1;
    while !(scatter[k] && Rank(scatter, k) == j)
      invariant 0 <= k < |scatter| && j < Rank(scatter, k + 1)
      decreases k
    {
      RankNext(scatter, k);
      k := k - 1;
    }
  }

  lemma RowsNext(b: Batch, k: nat)
    requires b.Valid() && k < |b.indices|
    ensures b.indices[k].None? ==> b.Rows()[..k + 1] == b.Rows()[..k] + [None]
    ensures b.indices[k].Some? ==> b.Rows()[..k + 1] == b.Rows()[..k] + [Some(b.base.At(b.indices[k].value))]
  {
    hide ArrayVector.At;
  }

  lemma RowsAll(b: Batch)
    requires b.Valid()
    ensures b.Rows()[..0] == [] && b.Rows()[..|b.indices|] == b.Rows()
  {
    hide ArrayVector.At;
  }

  // ----- rows that follow one another, but for nulls

  /** Neither row is null, and all between them are. */
  predicate Neighbours<T>(rows: seq<Option<T>>, i: nat, k: nat)
  {
    i < k < |rows| && rows[i].Some? && rows[k].Some? && forall m :: i < m < k ==> rows[m].None?
  }

  /** The last row that is not null. */
  function LastSome<T>(rows: seq<Option<T>>): (last: Option<nat>)
    ensures last.None? ==> AllNull(rows)
    ensures last.Some? ==>
      && last.value < |rows| && rows[last.value].Some?
      && forall m :: last.value < m < |rows| ==> rows[m].None?
  {
    if rows == [] then None
    else if rows[|rows| - 1].Some? then Some(|rows| - 1)
    else LastSome(rows[..|rows| - 1])
  }

  lemma LastOfNext<T>(rows: seq<Option<T>>, next: Option<T>)
    ensures LastSome(rows + [next]) == if next.Some? then Some(|rows|) else LastSome(rows)
  {
    assert (rows + [next])[..|rows|] == rows;
  }

  /** One more row brings at most one more pair of neighbours. */
  lemma NeighboursNext<T>(rows: seq<Option<T>>, next: Option<T>, i: nat, k: nat)
    ensures Neighbours(rows + [next], i, k) <==>
      Neighbours(rows, i, k) || (k == |rows| && next.Some? && LastSome(rows) == Some(i))
  {
    var all := rows + [next];
    if Neighbours(all, i, k) && k < |rows| {
      forall m | i < m < k ensures rows[m].None? { assert all[m] == rows[m]; }
    }
    if k == |rows| {
      if Neighbours(all, i, k) {
        forall m | i < m < |rows| ensures rows[m].None? { assert all[m] == rows[m]; }
        var last := LastSome(rows);
        assert rows[i].Some?;
      }
    }
  }

  lemma LastIsNeighbour<T>(rows: seq<Option<T>>, k: nat)
    requires k < |rows| && rows[k].Some? && LastSome(rows[..k]).Some?
    ensures Neighbours(rows, LastSome(rows[..k]).value, k)
  {
    var i := LastSome(rows[..k]).value;
    assert rows[..k][i].Some?;
    forall m | i < m < k ensures rows[m].None? { assert rows[..k][m].None?; }
  }

  lemma NeighbourBounds<T>(rows: seq<Option<T>>)
    ensures forall i: nat, k: nat :: Neighbours(rows, i, k) ==> i < k < |rows| && rows[i].Some? && rows[k].Some?
  {
  }

  lemma {:induction false} SameLastSome<T, U>(a: seq<Option<T>>, b: seq<Option<U>>)
    requires |a| == |b| && forall k :: 0 <= k < |a| ==> a[k].Some? == b[k].Some?
    ensures LastSome(a) == LastSome(b)
  {
    if a != [] { SameLastSome(a[..|a| - 1], b[..|b| - 1]); }
  }

  /** How often the value changes from one row to the next that is not null, the first one included. */
  function Changes<T(==)>(rows: seq<Option<T>>, n: nat): (count: nat)
    requires n <= |rows|
    ensures count <= n
  {
    if n == 0 then 0
    else if rows[n - 1].None? then Changes(rows, n - 1)
    else
      var last := LastSome(rows[..n - 1]);
      Changes(rows, n - 1) + if last.Some? && rows[last.value] == rows[n - 1] then 0 else 1
  }

  datatype ReadStep = Take(scatter: seq<bool>) | Skipping(n: nat)
  {
    function Count(): nat
    {
      if Take? then CountTrue(scatter) else n
    }
  }

  predicate InBounds(rowCount: nat, p: nat, steps: seq<ReadStep>)
    decreases |steps|
  {
    if steps == [] then p <= rowCount
    else p + steps[0].Count() <= rowCount && InBounds(rowCount, p + steps[0].Count(), steps[1..])
  }

  /** What the reads of a run should return. */
  function Expected(rows: seq<Option<seq<Element>>>, p: nat, steps: seq<ReadStep>): seq<seq<Option<seq<Element>>>>
    requires InBounds(|rows|, p, steps)
    decreases |steps|
  {
    if steps == [] then []
    else
      var next := p + steps[0].Count();
      match steps[0]
      case Skipping(_) => Expected(rows, next, steps[1..])
      case Take(scatter) =>
        [Merge(scatter, rows[p..next], Repeat(None, |scatter| - (next - p)))] + Expected(rows, next, steps[1..])
  }

  lemma NextStep(rows: seq<Option<seq<Element>>>, p: nat, rest: seq<ReadStep>)
    requires InBounds(|rows|, p, rest) && rest != []
    ensures p + rest[0].Count() <= |rows| && InBounds(|rows|, p + rest[0].Count(), rest[1..])
    ensures
      var next := p + rest[0].Count();
      match rest[0]
      case Take(scatter) =>
        Expected(rows, p, rest) ==
          [Merge(scatter, rows[p..next], Repeat(None, |scatter| - (next - p)))] + Expected(rows, next, rest[1..])
      case Skipping(_) => Expected(rows, p, rest) == Expected(rows, next, rest[1..])
  {
    hide CountTrue, Merge, Rank;
  }

  /** A run with resets is a sequence of passes, each from row 0 on. */
  predicate PassesInBounds(rowCount: nat, passes: seq<seq<ReadStep>>)
  {
    forall i :: 0 <= i < |passes| ==> InBounds(rowCount, 0, passes[i])
  }

  /** What the reads of every pass should return. */
  function ExpectedPasses(rows: seq<Option<seq<Element>>>, passes: seq<seq<ReadStep>>):
      seq<seq<seq<Option<seq<Element>>>>>
    requires PassesInBounds(|rows|, passes)
  {
    if passes == [] then [] else [Expected(rows, 0, passes[0])] + ExpectedPasses(rows, passes[1..])
  }

  // ----- comparing what is read with what is expected

  /** Somewhere the outputs so far are not the expected ones. */
  ghost predicate Differ<T(!new)>(outputs: seq<T>, whole: seq<T>)
  {
    exists j :: 0 <= j < |outputs| && (j >= |whole| || outputs[j] != whole[j])
  }

  lemma DifferMore<T(!new)>(outputs: seq<T>, whole: seq<T>, next: T)
    requires Differ(outputs, whole)
    ensures Differ(outputs + [next], whole)
  {
    var j :| 0 <= j < |outputs| && (j >= |whole| || outputs[j] != whole[j]);
    assert (outputs + [next])[j] == outputs[j];
  }

  lemma RowsAgree<T(!new)>(before: seq<T>, whole: seq<T>, next: T, expected: seq<T>)
    requires whole == before + expected && expected != []
    ensures next == expected[0] ==> whole == before + [next] + expected[1..]
    ensures next != expected[0] ==> Differ(before + [next], whole)
  {
    if next == expected[0] {
      assert expected == [next] + expected[1..];
    } else {
      assert whole[|before|] == expected[0] && (before + [next])[|before|] == next;
    }
  }
}
