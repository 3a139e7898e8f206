/** Ranges of positions in the order they were added; a range that continues the last one extends it. */
module OrderedRange {

  function Interval(offset: nat, size: nat): (r: seq<nat>)
    ensures |r| == size
  {
    seq<nat>(size, (i: nat) => offset + i)
  }

  function Positions(ranges: seq<(nat, nat)>): seq<nat>
  {
    if ranges == [] then []
    else Positions(ranges[..|ranges| - 1]) + Interval(ranges[|ranges| - 1].0, ranges[|ranges| - 1].1)
  }

  /** No range continues the one before it. */
  predicate Coalesced(ranges: seq<(nat, nat)>)
  {
    forall i :: 0 < i < |ranges| ==> ranges[i - 1].0 + ranges[i - 1].1 != ranges[i].0
  }

  class OrderedRanges {
    var ranges: seq<(nat, nat)>
    var size: nat

    constructor ()
      ensures Valid() && Visited() == []
    {
      ranges, size := [], 0;
    }

    ghost predicate Valid()
      reads this
    {
      size == |Positions(ranges)| && Coalesced(ranges)
    }

    /** The positions `applyEach` visits, in order. */
    ghost function Visited(): seq<nat>
      reads this
    {
      Positions(ranges)
    }

    /** Coalescing does not change what is visited. */
    method Add(offset: nat, count: nat)
      requires Valid()
      modifies this
      ensures Valid() && Visited() == old(Visited()) + Interval(offset, count)
      ensures |ranges| <= old(|ranges|) + 1
    {
      size := size + count;
      if |ranges| > 0 {
        var n := |ranges| - 1;
        var last := ranges[n];
        if last.0 + last.1 == offset {
          assert Interval(last.0, last.1 + count) == Interval(last.0, last.1) + Interval(offset, count);
          assert ranges[n := (last.0, last.1 + count)][..n] == ranges[..n];
          ranges := ranges[n := (last.0, last.1 + count)];
          return;
        }
      }
      assert (ranges + [(offset, count)])[..|ranges|] == ranges;
      ranges := ranges + [(offset, count)];
    }

    /** `applyEach`, collecting what the callback is called with. */
    method ApplyEach() returns (visited: seq<nat>)
      ensures visited == Visited()
    {
      visited := [];
      for i := 0 to |ranges|
        invariant visited == Positions(ranges[..i])
      {
        ghost var before := visited;
        var offset, end := ranges[i].0, ranges[i].0 + ranges[i].1;
        while offset < end
          invariant ranges[i].0 <= offset <= end && visited == before + Interval(ranges[i].0, offset - ranges[i].0)
        {
          visited := visited + [offset];
          offset := offset + 1;
        }
        assert ranges[..i + 1][..i] == ranges[..i];
      }
      assert ranges[..|ranges|] == ranges;
    }
  }
}
