/**
  Maps stored as windows over one sequence of entries.  A row that equals the one before shares its
  window; any other starts where the last one ended.  So the distinct windows of a batch lie one after
  the other, and the reader fetches them with one seek and one read.
 */
module SlidingWindow {
  import opened Wrappers
  import opened Sequences
  import opened OrderedRange
  import opened Vectors

  /** Where a map lies among the entries.  An `Element` is an entry, key and value together. */
  datatype Window = Window(offset: nat, length: nat)

  // ----- the streams

  /** An offset for every row, null or not, a length for every row that is not null, and the entries. */
  datatype Streams = Streams(offsets: seq<Option<nat>>, lengths: seq<nat>, entries: seq<Element>)

  function NonNulls(offsets: seq<Option<nat>>, k: nat): (n: nat)
    requires k <= |offsets|
    ensures n <= k
  {
    if k == 0 then 0 else NonNulls(offsets, k - 1) + if offsets[k - 1].Some? then 1 else 0
  }

  lemma {:induction false} NonNullsMono(offsets: seq<Option<nat>>, j: nat, k: nat)
    requires j <= k <= |offsets|
    ensures NonNulls(offsets, j) <= NonNulls(offsets, k)
    decreases k - j
  {
    if j < k { NonNullsMono(offsets, j, k - 1); }
  }

  lemma {:induction false} NonNullsPrefix(xs: seq<Option<nat>>, ys: seq<Option<nat>>, k: nat)
    requires k <= |xs|
    ensures NonNulls(xs + ys, k) == NonNulls(xs, k)
  {
    if k > 0 { NonNullsPrefix(xs, ys, k - 1); }
  }

  function Windows(offsets: seq<Option<nat>>, lengths: seq<nat>): (w: seq<Option<Window>>)
    requires |lengths| == NonNulls(offsets, |offsets|)
    ensures |w| == |offsets|
  {
    seq(|offsets|, k requires 0 <= k < |offsets| =>
      match offsets[k]
      case None => None
      case Some(offset) => NonNullsMono(offsets, k + 1, |offsets|); Some(Window(offset, lengths[NonNulls(offsets, k)])))
  }

  function LastWindow(w: seq<Option<Window>>, before: Option<Window>, k: nat): Option<Window>
    requires k <= |w|
  {
    if k == 0 then before else if w[k - 1].Some? then w[k - 1] else LastWindow(w, before, k - 1)
  }

  function FirstWindow(w: seq<Option<Window>>, k: nat): Option<Window>
    requires k <= |w|
  {
    if k == 0 then None
    else
      var first := FirstWindow(w, k - 1);
      if first.Some? then first else w[k - 1]
  }

  /** Where the entries of some rows begin and end. */
  function Span(w: seq<Option<Window>>): (nat, nat)
  {
    var first, last := FirstWindow(w, |w|), LastWindow(w, None, |w|);
    if first.None? || last.None? then (0, 0) else (first.value.offset, last.value.offset + last.value.length)
  }

  predicate Follows(last: Option<Window>, window: Window)
  {
    last.Some? ==> window == last.value || window.offset == last.value.offset + last.value.length
  }

  predicate Chained(w: seq<Option<Window>>, before: Option<Window>)
  {
    forall k :: 0 <= k < |w| && w[k].Some? ==> Follows(LastWindow(w, before, k), w[k].value)
  }

  predicate WellFormed(s: Streams)
  {
    && |s.lengths| == NonNulls(s.offsets, |s.offsets|) && Chained(Windows(s.offsets, s.lengths), None)
    && Within(Windows(s.offsets, s.lengths), |s.entries|)
  }

  predicate Within(w: seq<Option<Window>>, size: nat)
  {
    forall k :: 0 <= k < |w| && w[k].Some? ==> w[k].value.offset + w[k].value.length <= size
  }

  /** The maps that windows over the entries stand for. */
  function Maps(w: seq<Option<Window>>, entries: seq<Element>): (rows: seq<Option<seq<Element>>>)
    requires Within(w, |entries|)
    ensures |rows| == |w|
  {
    seq(|w|, k requires 0 <= k < |w| =>
      if w[k].None? then None else Some(entries[w[k].value.offset..w[k].value.offset + w[k].value.length]))
  }

  function Rows(s: Streams): (rows: seq<Option<seq<Element>>>)
    requires WellFormed(s)
    ensures |rows| == |s.offsets|
  {
    Maps(Windows(s.offsets, s.lengths), s.entries)
  }

  /** The same maps: the order of the entries does not matter. */
  ghost predicate SameMaps(a: seq<Option<seq<Element>>>, b: seq<Option<seq<Element>>>)
  {
    |a| == |b| && forall k :: 0 <= k < |a| ==> SameMap(a[k], b[k])
  }

  ghost predicate SameMap(a: Option<seq<Element>>, b: Option<seq<Element>>)
  {
    a.Some? == b.Some? && (a.Some? ==> multiset(a.value) == multiset(b.value))
  }

  // ----- one more row

  lemma {:induction false} LastPrefix(xs: seq<Option<Window>>, ys: seq<Option<Window>>, before: Option<Window>, k: nat)
    requires k <= |xs|
    ensures LastWindow(xs + ys, before, k) == LastWindow(xs, before, k)
  {
    if k > 0 { LastPrefix(xs, ys, before, k - 1); }
  }

  lemma ChainedNext(w: seq<Option<Window>>, next: Option<Window>, before: Option<Window>)
    requires Chained(w, before) && (next.Some? ==> Follows(LastWindow(w, before, |w|), next.value))
    ensures Chained(w + [next], before)
    ensures LastWindow(w + [next], before, |w| + 1) == if next.Some? then next else LastWindow(w, before, |w|)
  {
    forall k | 0 <= k <= |w| ensures LastWindow(w + [next], before, k) == LastWindow(w, before, k) {
      LastPrefix(w, [next], before, k);
    }
  }

  lemma WindowsNext(offsets: seq<Option<nat>>, lengths: seq<nat>, next: Option<Window>)
    requires |lengths| == NonNulls(offsets, |offsets|)
    ensures
      var o := offsets + [if next.Some? then Some(next.value.offset) else None];
      var l := if next.Some? then lengths + [next.value.length] else lengths;
      |l| == NonNulls(o, |o|) && Windows(o, l) == Windows(offsets, lengths) + [next]
  {
    hide NonNulls;
    var o := offsets + [if next.Some? then Some(next.value.offset) else None];
    var l := if next.Some? then lengths + [next.value.length] else lengths;
    NonNullsStep(o, |offsets|);
    NonNullsPrefix(offsets, o[|offsets|..], |offsets|);
    assert o == offsets + o[|offsets|..];
    var w, w' := Windows(offsets, lengths) + [next], Windows(o, l);
    forall k | 0 <= k < |o| ensures w'[k] == w[k] {
      NonNullsPrefix(offsets, o[|offsets|..], if k < |offsets| then k else |offsets|);
      if k < |offsets| && offsets[k].Some? {
        NonNullsStep(offsets, k);
        NonNullsMono(offsets, k + 1, |offsets|);
      }
    }
  }

  lemma NonNullsStep(offsets: seq<Option<nat>>, k: nat)
    requires k < |offsets|
    ensures NonNulls(offsets, k + 1) == NonNulls(offsets, k) + if offsets[k].Some? then 1 else 0
  {
  }

  /** The streams with one more row, whose window lies in the entries. */
  function AddRow(s: Streams, next: Option<Window>, more: seq<Element>): Streams
  {
    Streams(s.offsets + [if next.Some? then Some(next.value.offset) else None],
            if next.Some? then s.lengths + [next.value.length] else s.lengths, s.entries + more)
  }

  function LastOf(s: Streams): Option<Window>
    requires WellFormed(s)
  {
    LastWindow(Windows(s.offsets, s.lengths), None, |s.offsets|)
  }

  lemma RowAdded(s: Streams, rows: seq<Option<seq<Element>>>, next: Option<Window>, more: seq<Element>,
        row: Option<seq<Element>>)
    requires WellFormed(s) && SameMaps(Rows(s), rows)
    requires next.Some? ==>
      Follows(LastOf(s), next.value) && next.value.offset + next.value.length <= |s.entries + more|
    requires next.Some? == row.Some?
    requires next.Some? ==>
      multiset((s.entries + more)[next.value.offset..next.value.offset + next.value.length]) == multiset(row.value)
    ensures WellFormed(AddRow(s, next, more)) && SameMaps(Rows(AddRow(s, next, more)), rows + [row])
    ensures LastOf(AddRow(s, next, more)) == if next.Some? then next else LastOf(s)
    ensures
      var t := AddRow(s, next, more);
      Windows(t.offsets, t.lengths) == Windows(s.offsets, s.lengths) + [next]
  {
    hide NonNulls, Chained, LastWindow, Windows, Maps, Within;
    var t := AddRow(s, next, more);
    WindowsNext(s.offsets, s.lengths, next);
    var w := Windows(s.offsets, s.lengths);
    ChainedNext(w, next, None);
    assert Windows(t.offsets, t.lengths) == w + [next];
    MapsNext(w, s.entries, more, next);
    var all := rows + [row];
    forall k | 0 <= k < |t.offsets| ensures SameMap(Rows(t)[k], all[k]) {
      if k < |s.offsets| { assert SameMap(Rows(s)[k], rows[k]); }
    }
  }

  lemma MapsNext(w: seq<Option<Window>>, entries: seq<Element>, more: seq<Element>, next: Option<Window>)
    requires Within(w, |entries|) && (next.Some? ==> next.value.offset + next.value.length <= |entries + more|)
    ensures Within(w + [next], |entries + more|)
    ensures forall k :: 0 <= k < |w| ==> Maps(w + [next], entries + more)[k] == Maps(w, entries)[k]
    ensures Maps(w + [next], entries + more)[|w|] ==
      if next.Some? then Some((entries + more)[next.value.offset..next.value.offset + next.value.length]) else None
  {
    forall k | 0 <= k < |w| && w[k].Some?
      ensures (entries + more)[w[k].value.offset..w[k].value.offset + w[k].value.length] ==
        entries[w[k].value.offset..w[k].value.offset + w[k].value.length]
    {
    }
  }

  // ----- the writer

  /** `CompareMapsAtIndex`: equal keys have equal values, in any order. */
  predicate EqualMaps(a: seq<Element>, b: seq<Element>)
  {
    |a| == |b| && multiset(a) == multiset(b)
  }

  // ----- which rows share a window

  /** Two rows with only nulls between them share a window exactly if they are the same map. */
  ghost predicate Windowed(w: seq<Option<Window>>, rows: seq<Option<seq<Element>>>)
  {
    && |w| == |rows| && (forall k :: 0 <= k < |rows| ==> w[k].Some? == rows[k].Some?)
    && forall i: nat, k: nat :: Neighbours(rows, i, k) ==> (w[i] == w[k] <==> SameMap(rows[i], rows[k]))
  }

  /** How many entries the rows need if a map that is the same as the last one adds none. */
  ghost function EntryCount(rows: seq<Option<seq<Element>>>): nat
  {
    if rows == [] then 0
    else
      var before, row := rows[..|rows| - 1], rows[|rows| - 1];
      EntryCount(before) + if row.None? || RepeatsLast(before, row.value) then 0 else |row.value|
  }

  /** The last row that is not null is the same map. */
  ghost predicate RepeatsLast(rows: seq<Option<seq<Element>>>, items: seq<Element>)
  {
    var last := LastSome(rows);
    last.Some? && SameMap(rows[last.value], Some(items))
  }

  lemma CountNext(rows: seq<Option<seq<Element>>>, row: Option<seq<Element>>)
    ensures EntryCount(rows + [row]) ==
      EntryCount(rows) + if row.None? || RepeatsLast(rows, row.value) then 0 else |row.value|
  {
    assert (rows + [row])[..|rows|] == rows;
  }

  lemma NullWindowed(w: seq<Option<Window>>, rows: seq<Option<seq<Element>>>)
    requires Windowed(w, rows)
    ensures Windowed(w + [None], rows + [None]) && EntryCount(rows + [None]) == EntryCount(rows)
    ensures LastSome(rows + [None]) == LastSome(rows)
  {
    hide Neighbours, SameMap, LastSome;
    CountNext(rows, None);
    LastOfNext(rows, None);
    NeighbourBounds(rows);
    forall i: nat, k: nat ensures Neighbours(rows + [None], i, k) <==> Neighbours(rows, i, k) {
      NeighboursNext(rows, None, i, k);
    }
  }

  lemma MapWindowed(w: seq<Option<Window>>, rows: seq<Option<seq<Element>>>, window: Window, items: seq<Element>)
    requires Windowed(w, rows)
    requires LastSome(rows).Some? ==> (w[LastSome(rows).value] == Some(window) <==> RepeatsLast(rows, items))
    ensures Windowed(w + [Some(window)], rows + [Some(items)])
  {
    hide Neighbours, SameMap, LastSome;
    var next, row := w + [Some(window)], rows + [Some(items)];
    LastOfNext(rows, Some(items));
    NeighbourBounds(rows);
    NeighbourBounds(row);
    forall i: nat, k: nat | Neighbours(row, i, k) ensures next[i] == next[k] <==> SameMap(row[i], row[k]) {
      NeighboursNext(rows, Some(items), i, k);
    }
  }

  lemma {:induction false} LastIsLast(w: seq<Option<Window>>, k: nat)
    requires k <= |w|
    ensures LastWindow(w, None, k) == if LastSome(w[..k]).Some? then w[LastSome(w[..k]).value] else None
  {
    if k > 0 {
      LastIsLast(w, k - 1);
      assert w[..k] == w[..k - 1] + [w[k - 1]];
      LastOfNext(w[..k - 1], w[k - 1]);
    }
  }

  /** The row is added as the writer does it. */
  lemma MapShared(s: Streams, rows: seq<Option<seq<Element>>>, items: seq<Element>, matches: bool)
    requires WellFormed(s) && SameMaps(Rows(s), rows) && matches == RepeatsLast(rows, items)
    requires Windowed(Windows(s.offsets, s.lengths), rows) && |s.entries| == EntryCount(rows)
    requires LastOf(s).Some? ==> LastOf(s).value.offset + LastOf(s).value.length == |s.entries|
    requires matches && items != [] ==> Ends(s, items)
    ensures matches ==> |items| <= |s.entries|
    ensures
      var t := AddRow(s, Some(NextOf(s, items, matches)), NewEntries(items, matches));
      && |t.lengths| == NonNulls(t.offsets, |t.offsets|)
      && Windowed(Windows(t.offsets, t.lengths), rows + [Some(items)])
      && |t.entries| == EntryCount(rows + [Some(items)])
  {
    hide WellFormed, SameMaps, Rows, LastOf, Windows, Windowed, EntryCount, LastSome, RepeatsLast, Ends;
    LengthsMatch(s);
    MapAdded(s, rows, items, matches);
    LengthsMatch(AddRow(s, Some(NextOf(s, items, matches)), NewEntries(items, matches)));
    WindowRepeats(s, rows, items, matches);
    MapWindowed(Windows(s.offsets, s.lengths), rows, NextOf(s, items, matches), items);
    CountNext(rows, Some(items));
  }

  lemma LengthsMatch(s: Streams)
    requires WellFormed(s)
    ensures |s.lengths| == NonNulls(s.offsets, |s.offsets|)
  {
  }

  /** The window that the writer takes is the last one again exactly if the map is the same. */
  lemma WindowRepeats(s: Streams, rows: seq<Option<seq<Element>>>, items: seq<Element>, matches: bool)
    requires WellFormed(s) && SameMaps(Rows(s), rows) && matches == RepeatsLast(rows, items)
    requires Windowed(Windows(s.offsets, s.lengths), rows)
    requires LastOf(s).Some? ==> LastOf(s).value.offset + LastOf(s).value.length == |s.entries|
    requires matches ==> |items| <= |s.entries|
    ensures
      var last := LastSome(rows);
      last.Some? ==> (Windows(s.offsets, s.lengths)[last.value] == Some(NextOf(s, items, matches)) <==> matches)
  {
    hide Chained, NonNulls, Within, LastWindow, Neighbours;
    var w, last := Windows(s.offsets, s.lengths), LastSome(rows);
    LastIsLast(w, |w|);
    assert w[..|w|] == w;
    SameLastSome(w, rows);
    if last.Some? {
      var window := w[last.value].value;
      assert SameMap(Rows(s)[last.value], rows[last.value]);
      assert |rows[last.value].value| == |multiset(rows[last.value].value)| ==
        |multiset(Rows(s)[last.value].value)| == window.length;
      if matches {
        assert |items| == |multiset(items)| == |multiset(rows[last.value].value)|;
      }
    }
  }

  class SlidingWindowMapWriter {
    ghost var streams: Streams
    ghost var written: seq<Option<seq<Element>>>
    /** The chunks handed over. */
    var flushed: Streams
    var offsetsData: seq<Option<nat>>
    var lengthsData: seq<nat>
    var entriesData: seq<Element>
    var currentOffset: nat
    var cached: bool
    var cachedLength: nat
    var cachedValue: seq<Element>

    constructor ()
      ensures Valid() && written == []
    {
      streams, written, flushed := Streams([], [], []), [], Streams([], [], []);
      offsetsData, lengthsData, entriesData := [], [], [];
      currentOffset, cached, cachedLength, cachedValue := 0, false, 0, [];
    }

    ghost predicate Consistent(pending: seq<Element>)
      reads this
    {
      && streams == Streams(
        flushed.offsets + offsetsData, flushed.lengths + lengthsData, flushed.entries + entriesData + pending)
      && WellFormed(streams) && SameMaps(Rows(streams), written) && currentOffset == |streams.entries|
      && (LastOf(streams).Some? ==> LastOf(streams).value.offset + LastOf(streams).value.length == currentOffset)
      && Windowed(Windows(streams.offsets, streams.lengths), written) && |streams.entries| == EntryCount(written)
    }

    /** The last window holds these entries. */
    ghost predicate LastIs(items: seq<Element>)
      requires WellFormed(streams)
      reads this
    {
      Ends(streams, items)
    }

    /** The last row that is not null. */
    ghost predicate LastRow(items: seq<Element>)
      reads this
    {
      LastSome(written).Some? && written[LastSome(written).value] == Some(items)
    }

    ghost predicate Valid()
      reads this
    {
      && Consistent([]) && cached == LastSome(written).Some?
      && (cached ==> LastIs(cachedValue) && LastRow(cachedValue) && cachedLength == |cachedValue|)
    }

    method AddNull(ghost pending: seq<Element>)
      requires Consistent(pending)
      modifies `streams, `written, `offsetsData
      ensures Consistent(pending) && written == old(written) + [None]
      ensures forall items :: old(LastIs(items)) ==> LastIs(items)
      ensures LastSome(written) == old(LastSome(written))
    {
      hide WellFormed, SameMaps, Rows, LastOf, Windowed, EntryCount, LastSome, Windows;
      LengthsMatch(streams);
      NullWindowed(Windows(streams.offsets, streams.lengths), written);
      RowAdded(streams, written, None, [], None);
      assert streams.entries + [] == streams.entries;
      assert flushed.offsets + offsetsData + [None] == flushed.offsets + (offsetsData + [None]);
      offsetsData := offsetsData + [None];
      written := written + [None];
      streams := AddRow(streams, None, []);
    }

    /** `processMapIndex`, once the row has been compared with the last one. */
    method AddMap(base: ArrayVector, index: nat, matches: bool, filteredRanges: OrderedRanges)
      requires base.Valid() && index < |base.sizes| && filteredRanges.Valid()
      requires Consistent(Gather(base.elements, filteredRanges.Visited()))
      requires matches ==> LastIs(base.At(index)) || base.sizes[index] == 0
      requires matches == RepeatsLast(written, base.At(index))
      modifies `streams, `written, `offsetsData, `lengthsData, `currentOffset, filteredRanges
      ensures filteredRanges.Valid() && Consistent(Gather(base.elements, filteredRanges.Visited()))
      ensures written == old(written) + [Some(base.At(index))] && LastIs(base.At(index)) && LastRow(base.At(index))
    {
      hide WellFormed, SameMaps, Rows, LastOf, Gather, ArrayVector.At, AddRow, Windowed, EntryCount, LastSome, Windows;
      hide RepeatsLast;
      var length := base.sizes[index];
      ghost var items, pending := base.At(index), Gather(base.elements, filteredRanges.Visited());
      AtLength(base, index);
      MapAdded(streams, written, items, matches);
      MapShared(streams, written, items, matches);
      LastOfNext(written, Some(items));
      AddRowParts(streams, items, matches, flushed.offsets + offsetsData, flushed.lengths + lengthsData,
        flushed.entries + entriesData, pending);
      Regrouped(flushed.lengths, lengthsData, length);
      if !matches && length > 0 {
        GatherMore(base, filteredRanges.Visited(), index);
        filteredRanges.Add(base.offsets[index], length);
        currentOffset := currentOffset + length;
      }
      lengthsData := lengthsData + [length];
      Regrouped(flushed.offsets, offsetsData, Some(currentOffset - length));
      offsetsData := offsetsData + [Some(currentOffset - length)];
      written := written + [Some(items)];
      streams := AddRow(streams, Some(NextOf(streams, items, matches)), NewEntries(items, matches));
    }

    /** `ingestOffsetsAndLengthsDeduplicated` */
    method WriteMaps(b: Batch, filteredRanges: OrderedRanges)
      requires Valid() && b.Valid() && filteredRanges.Valid() && filteredRanges.Visited() == []
      modifies this, filteredRanges
      ensures Consistent(Gather(b.base.elements, filteredRanges.Visited())) && filteredRanges.Valid()
      ensures written == old(written) + b.Rows()
      ensures cached == LastSome(written).Some?
      ensures cached ==> LastIs(cachedValue) && LastRow(cachedValue) && cachedLength == |cachedValue|
    {
      hide WellFormed, SameMaps, Rows, LastOf, Gather, ArrayVector.At, Ends, EqualMaps, Windowed, EntryCount, LastSome;
      hide Windows, RepeatsLast, Batch.Rows;
      var base := b.base;
      NothingGathered(flushed.entries + entriesData);
      var lastCompareIndex: Option<nat> := None;
      RowsAll(b);
      for k := 0 to |b.indices|
        invariant filteredRanges.Valid() && Consistent(Gather(base.elements, filteredRanges.Visited()))
        invariant written == old(written) + b.Rows()[..k]
        invariant cached == old(cached) && cachedValue == old(cachedValue) && cachedLength == old(cachedLength)
        invariant lastCompareIndex.None? ==> cached == LastSome(written).Some?
        invariant lastCompareIndex.None? && cached ==>
          LastIs(cachedValue) && LastRow(cachedValue) && cachedLength == |cachedValue|
        invariant lastCompareIndex.Some? ==>
          && lastCompareIndex.value < |base.sizes| && LastIs(base.At(lastCompareIndex.value))
          && LastRow(base.At(lastCompareIndex.value))
      {
        RowsNext(b, k);
        match b.indices[k] {
          case None =>
            AddNull(Gather(base.elements, filteredRanges.Visited()));
          case Some(index) =>
            var matches := false;
            var length := base.sizes[index];
            if lastCompareIndex.Some? {
              var last := lastCompareIndex.value;
              matches := length == base.sizes[last];
              if length > 0 { matches := matches && EqualMaps(base.At(index), base.At(last)); }
              if matches { EqualEnds(streams, base.At(last), base.At(index), base, last, index); }
              ComparedRepeats(written, base, last, index, matches);
            } else if cached {
              matches := length == cachedLength && EqualMaps(cachedValue, base.At(index));
              if matches { EqualCached(streams, cachedValue, base.At(index)); }
              CachedRepeats(written, base, cachedValue, index, matches);
            } else {
              NothingRepeats(written, base.At(index));
            }
            AddMap(base, index, matches, filteredRanges);
            lastCompareIndex := Some(index);
        }
      }
      RowsAll(b);
      if lastCompareIndex.Some? {
        cached := true;
        cachedLength := base.sizes[lastCompareIndex.value];
        cachedValue := base.At(lastCompareIndex.value);
        AtLength(base, lastCompareIndex.value);
      }
    }

    method Write(b: Batch)
      requires Valid() && b.Valid()
      modifies this
      ensures Valid() && written == old(written) + b.Rows()
    {
      hide WellFormed, SameMaps, Rows, LastOf, Gather, Ends, ArrayVector.Valid, Windowed, EntryCount, LastSome, Windows;
      var filteredRanges := new OrderedRanges();
      WriteMaps(b, filteredRanges);
      var positions := filteredRanges.ApplyEach();
      ghost var gathered := Gather(b.base.elements, positions);
      assert flushed.entries + entriesData + gathered == flushed.entries + (entriesData + gathered) + [];
      entriesData := entriesData + Gather(b.base.elements, positions);
    }

    /** All of the stripe: the chunks handed over and what the buffers hold. */
    method Stored() returns (s: Streams)
      requires Valid()
      ensures WellFormed(s) && SameMaps(Rows(s), written)
      ensures Windowed(Windows(s.offsets, s.lengths), written) && |s.entries| == EntryCount(written)
    {
      s := Streams(flushed.offsets + offsetsData, flushed.lengths + lengthsData, flushed.entries + entriesData);
      assert s.entries + [] == s.entries;
    }

    /** Chunks are handed over between batches, of any of the streams. */
    method FlushChunk(offsets: bool, lengths: bool, entries: bool)
      requires Valid()
      modifies `flushed, `offsetsData, `lengthsData, `entriesData
      ensures Valid()
      ensures offsetsData == (if offsets then [] else old(offsetsData))
      ensures lengthsData == (if lengths then [] else old(lengthsData))
      ensures entriesData == (if entries then [] else old(entriesData))
    {
      hide WellFormed, SameMaps, Rows, LastOf, Ends, Windowed, EntryCount, LastSome, Windows;
      if offsets { flushed, offsetsData := flushed.(offsets := flushed.offsets + offsetsData), []; }
      if lengths { flushed, lengthsData := flushed.(lengths := flushed.lengths + lengthsData), []; }
      if entries { flushed, entriesData := flushed.(entries := flushed.entries + entriesData), []; }
      assert flushed.offsets + offsetsData == old(flushed.offsets + offsetsData);
      assert flushed.lengths + lengthsData == old(flushed.lengths + lengthsData);
      assert flushed.entries + entriesData == old(flushed.entries + entriesData);
    }

    /** The end of a stripe. */
    method Reset()
      modifies this
      ensures Valid() && written == []
    {
      streams, written, flushed := Streams([], [], []), [], Streams([], [], []);
      offsetsData, lengthsData, entriesData := [], [], [];
      currentOffset, cached, cachedLength := 0, false, 0;
    }
  }

  lemma Regrouped<T>(a: seq<T>, b: seq<T>, x: T)
    ensures a + b + [x] == a + (b + [x])
  {
  }

  /** A row equal to the last one adds no entries. */
  function NewEntries(items: seq<Element>, matches: bool): seq<Element>
  {
    if matches then [] else items
  }

  function NextOf(s: Streams, items: seq<Element>, matches: bool): Window
    requires matches ==> |items| <= |s.entries|
  {
    Window(|s.entries| + |NewEntries(items, matches)| - |items|, |items|)
  }

  lemma AddRowParts(
      s: Streams, items: seq<Element>, matches: bool, offsets: seq<Option<nat>>, lengths: seq<nat>,
      entries: seq<Element>, pending: seq<Element>)
    requires s == Streams(offsets, lengths, entries + pending) && (matches ==> |items| <= |s.entries|)
    ensures AddRow(s, Some(NextOf(s, items, matches)), NewEntries(items, matches)) ==
      Streams(offsets + [Some(NextOf(s, items, matches).offset)], lengths + [|items|],
        entries + (pending + NewEntries(items, matches)))
    ensures pending + [] == pending
  {
    assert entries + pending + NewEntries(items, matches) == entries + (pending + NewEntries(items, matches));
  }

  ghost predicate Ends(s: Streams, items: seq<Element>)
    requires WellFormed(s)
  {
    && LastOf(s).Some? && LastOf(s).value.length == |items| && LastOf(s).value.offset + |items| <= |s.entries|
    && multiset(s.entries[LastOf(s).value.offset..LastOf(s).value.offset + |items|]) == multiset(items)
  }

  lemma EqualEnds(
      s: Streams, last: seq<Element>, items: seq<Element>, base: ArrayVector, i: nat, j: nat)
    requires WellFormed(s) && Ends(s, last) && base.Valid() && i < |base.sizes| && j < |base.sizes|
    requires base.sizes[i] == base.sizes[j] && last == base.At(i) && items == base.At(j)
    requires base.sizes[j] > 0 ==> EqualMaps(items, last)
    ensures Ends(s, items)
  {
    hide WellFormed, LastOf;
    AtLength(base, i);
    AtLength(base, j);
    if base.sizes[j] == 0 { assert items == [] == last; }
  }

  /** Comparing with the last array of the batch, or with the cached one, tells whether the map repeats. */
  lemma ComparedRepeats(
      rows: seq<Option<seq<Element>>>, base: ArrayVector, last: nat, index: nat, matches: bool)
    requires base.Valid() && last < |base.sizes| && index < |base.sizes|
    requires LastSome(rows).Some? && rows[LastSome(rows).value] == Some(base.At(last))
    requires matches == (base.sizes[index] == base.sizes[last] &&
      (base.sizes[index] > 0 ==> EqualMaps(base.At(index), base.At(last))))
    ensures matches == RepeatsLast(rows, base.At(index))
  {
    hide LastSome;
    var a, b := base.At(last), base.At(index);
    AtLength(base, last);
    AtLength(base, index);
    assert |a| == |multiset(a)| && |b| == |multiset(b)|;
    if |a| == |b| == 0 { assert a == [] == b; }
  }

  lemma CachedRepeats(
      rows: seq<Option<seq<Element>>>, base: ArrayVector, cached: seq<Element>, index: nat, matches: bool)
    requires base.Valid() && index < |base.sizes|
    requires LastSome(rows).Some? && rows[LastSome(rows).value] == Some(cached)
    requires matches == (base.sizes[index] == |cached| && EqualMaps(cached, base.At(index)))
    ensures matches == RepeatsLast(rows, base.At(index))
  {
    hide LastSome;
    AtLength(base, index);
    assert |cached| == |multiset(cached)| && |base.At(index)| == |multiset(base.At(index))|;
  }

  lemma NothingRepeats(rows: seq<Option<seq<Element>>>, items: seq<Element>)
    requires LastSome(rows).None?
    ensures !RepeatsLast(rows, items)
  {
  }

  lemma EqualCached(s: Streams, last: seq<Element>, items: seq<Element>)
    requires WellFormed(s) && Ends(s, last) && EqualMaps(last, items)
    ensures Ends(s, items)
  {
  }

  lemma MapAdded(s: Streams, rows: seq<Option<seq<Element>>>, items: seq<Element>, matches: bool)
    requires WellFormed(s) && SameMaps(Rows(s), rows)
    requires LastOf(s).Some? ==> LastOf(s).value.offset + LastOf(s).value.length == |s.entries|
    requires matches && items != [] ==> Ends(s, items)
    ensures matches ==> |items| <= |s.entries|
    ensures
      var t := AddRow(s, Some(NextOf(s, items, matches)), NewEntries(items, matches));
      && WellFormed(t) && SameMaps(Rows(t), rows + [Some(items)]) && Ends(t, items)
      && Windows(t.offsets, t.lengths) == Windows(s.offsets, s.lengths) + [Some(NextOf(s, items, matches))]
      && LastOf(t).value.offset + LastOf(t).value.length == |t.entries| == |s.entries| + |NewEntries(items, matches)|
  {
    hide WellFormed, SameMaps, Rows, LastOf;
    var more, window := NewEntries(items, matches), NextOf(s, items, matches);
    NextWindow(s.entries, items, more, window, LastOf(s), matches);
    RowAdded(s, rows, Some(window), more, Some(items));
    var t := AddRow(s, Some(window), more);
    assert t.entries == s.entries + more && LastOf(t) == Some(window);
    hide AddRow, Ends;
    MapEnds(t, s.entries + more, window, items);
  }

  lemma MapEnds(t: Streams, entries: seq<Element>, window: Window, items: seq<Element>)
    requires WellFormed(t) && t.entries == entries && LastOf(t) == Some(window) && window.length == |items|
    requires window.offset + window.length <= |entries|
    requires multiset(entries[window.offset..window.offset + window.length]) == multiset(items)
    ensures Ends(t, items)
  {
    hide WellFormed, LastOf;
  }

  lemma {:induction false} LastWithin(w: seq<Option<Window>>, size: nat, k: nat)
    requires Within(w, size) && k <= |w|
    ensures LastWindow(w, None, k).Some? ==>
      LastWindow(w, None, k).value.offset + LastWindow(w, None, k).value.length <= size
  {
    if k > 0 { LastWithin(w, size, k - 1); }
  }

  /** A row gets the last window again, or the one that begins where the entries ended. */
  lemma NextWindow(
      entries: seq<Element>, items: seq<Element>, more: seq<Element>, window: Window, last: Option<Window>,
        matches: bool)
    requires last.Some? ==> last.value.offset + last.value.length == |entries|
    requires more == NewEntries(items, matches)
    requires matches && |items| > 0 ==>
      && last.Some? && last.value.length == |items|
      && multiset(entries[last.value.offset..last.value.offset + |items|]) == multiset(items)
    requires window.length == |items| && window.offset + |items| == |entries| + |more|
    ensures Follows(last, window) && window.offset + window.length <= |entries + more|
    ensures multiset((entries + more)[window.offset..window.offset + window.length]) == multiset(items)
  {
    if matches && |items| > 0 {
      assert entries + more == entries;
    } else if !matches {
      assert (entries + more)[window.offset..window.offset + window.length] == items;
    } else {
      assert (entries + more)[window.offset..window.offset + window.length] == [] == items;
    }
  }

  // ----- the reader

  /** Reading on from `p`: the windows of the rows, spread over the output positions. */
  lemma SpreadWindows(s: Streams, p: nat, n: nat, scatter: seq<bool>)
    requires WellFormed(s) && p + n <= |s.offsets| && CountTrue(scatter) == n
    ensures
      var rows := Spread(s.offsets[p..p + n], scatter);
      var from, to := NonNulls(s.offsets, p), NonNulls(s.offsets, p + n);
      && from <= to <= |s.lengths| && NonNulls(rows, |rows|) == to - from
      && Windows(rows, s.lengths[from..to]) == Spread(Windows(s.offsets, s.lengths)[p..p + n], scatter)
  {
    hide CountTrue, Merge, Rank, NonNulls, Chained;
    var rows := Spread(s.offsets[p..p + n], scatter);
    var from, to := NonNulls(s.offsets, p), NonNulls(s.offsets, p + n);
    NonNullsMono(s.offsets, p, p + n);
    NonNullsMono(s.offsets, p + n, |s.offsets|);
    SpreadCount(s.offsets, p, n, scatter, |scatter|);
    RankAll(scatter);
    var all := Windows(s.offsets, s.lengths);
    var w, w' := Windows(rows, s.lengths[from..to]), Spread(all[p..p + n], scatter);
    forall k | 0 <= k < |scatter| ensures w[k] == w'[k] {
      SpreadCount(s.offsets, p, n, scatter, k);
      MergeAt(scatter, s.offsets[p..p + n], Repeat(None, |scatter| - n), k);
      MergeAt(scatter, all[p..p + n], Repeat(None, |scatter| - n), k);
      if rows[k].Some? {
        NonNullsStep(rows, k);
        NonNullsMono(rows, k + 1, |rows|);
      }
    }
  }

  lemma {:induction false} SpreadCount(offsets: seq<Option<nat>>, p: nat, n: nat, scatter: seq<bool>, k: nat)
    requires p + n <= |offsets| && CountTrue(scatter) == n && k <= |scatter|
    ensures Rank(scatter, k) <= n
    ensures NonNulls(Spread(offsets[p..p + n], scatter), k) ==
      NonNulls(offsets, p + Rank(scatter, k)) - NonNulls(offsets, p)
  {
    hide CountTrue, Merge;
    RankMono(scatter, k, |scatter|);
    RankAll(scatter);
    if k > 0 {
      SpreadCount(offsets, p, n, scatter, k - 1);
      RankNext(scatter, k - 1);
      MergeAt(scatter, offsets[p..p + n], Repeat(None, |scatter| - n), k - 1);
    }
  }

  /** The windows of a batch form a chain of their own. */
  lemma SpreadChained(w: seq<Option<Window>>, p: nat, n: nat, scatter: seq<bool>)
    requires Chained(w, None) && p + n <= |w| && CountTrue(scatter) == n
    ensures Chained(Spread(w[p..p + n], scatter), None)
  {
    hide CountTrue, Merge, Rank, LastWindow;
    var rows := Spread(w[p..p + n], scatter);
    RankAll(scatter);
    forall k | 0 <= k < |rows| && rows[k].Some? ensures Follows(LastWindow(rows, None, k), rows[k].value) {
      MergeAt(scatter, w[p..p + n], Repeat(None, |scatter| - n), k);
      SpreadLast(w, p, n, scatter, k);
      assert w[p + Rank(scatter, k)] == rows[k];
    }
  }

  lemma {:induction false} SpreadLast(w: seq<Option<Window>>, p: nat, n: nat, scatter: seq<bool>, k: nat)
    requires p + n <= |w| && CountTrue(scatter) == n && k <= |scatter|
    ensures Rank(scatter, k) <= n
    ensures
      var last := LastWindow(Spread(w[p..p + n], scatter), None, k);
      last == None || last == LastWindow(w, None, p + Rank(scatter, k))
  {
    hide CountTrue, Merge;
    RankMono(scatter, k, |scatter|);
    RankAll(scatter);
    if k > 0 {
      SpreadLast(w, p, n, scatter, k - 1);
      RankNext(scatter, k - 1);
      MergeAt(scatter, w[p..p + n], Repeat(None, |scatter| - n), k - 1);
    }
  }

  /** Windows one after the other. */
  predicate Contiguous(d: seq<Window>)
  {
    forall i :: 0 < i < |d| ==> d[i].offset == d[i - 1].offset + d[i - 1].length
  }

  /** The distinct windows of a batch, the number of each row's window, and where the windows end. */
  method Deduplicate(offsets: seq<Option<nat>>, lengthBuffer: seq<nat>)
    returns (indices: seq<nat>, distinct: seq<Window>, endOffset: nat)
    requires |lengthBuffer| == NonNulls(offsets, |offsets|) > 0
    requires Chained(Windows(offsets, lengthBuffer), None)
    ensures |indices| == |offsets| && |distinct| > 0 && Contiguous(distinct)
    ensures endOffset == distinct[|distinct| - 1].offset + distinct[|distinct| - 1].length
    ensures Span(Windows(offsets, lengthBuffer)) == (distinct[0].offset, endOffset)
    ensures LastWindow(Windows(offsets, lengthBuffer), None, |offsets|) == Some(distinct[|distinct| - 1])
    ensures forall k :: 0 <= k < |offsets| && offsets[k].Some? ==>
      indices[k] < |distinct| && Some(distinct[indices[k]]) == Windows(offsets, lengthBuffer)[k]
  {
    hide NonNulls, Windows, Chained;
    ghost var w := Windows(offsets, lengthBuffer);
    indices, distinct, endOffset := [], [], 0;
    var nullCount: nat := 0;
    NoneYet(offsets);
    for idx := 0 to |offsets|
      invariant |indices| == idx && nullCount + NonNulls(offsets, idx) == idx && Contiguous(distinct)
      invariant (distinct == []) == (NonNulls(offsets, idx) == 0)
      invariant LastWindow(w, None, idx) == if distinct == [] then None else Some(distinct[|distinct| - 1])
      invariant FirstWindow(w, idx) == if distinct == [] then None else Some(distinct[0])
      invariant distinct != [] ==> endOffset == distinct[|distinct| - 1].offset + distinct[|distinct| - 1].length
      invariant forall k :: 0 <= k < idx && offsets[k].Some? ==>
        indices[k] < |distinct| && Some(distinct[indices[k]]) == w[k]
    {
      NonNullsStep(offsets, idx);
      WindowAt(offsets, lengthBuffer, idx);
      if offsets[idx].None? {
        indices := indices + [0];
        nullCount := nullCount + 1;
        continue;
      }
      var window := Window(offsets[idx].value, lengthBuffer[idx - nullCount]);
      if distinct == [] {
        distinct := [window];
        endOffset := window.offset + window.length;
      } else if distinct[|distinct| - 1] != window {
        distinct := distinct + [window];
        endOffset := if window.offset + window.length > endOffset then window.offset + window.length else endOffset;
      }
      indices := indices + [|distinct| - 1];
    }
  }

  lemma WindowAt(offsets: seq<Option<nat>>, lengths: seq<nat>, k: nat)
    requires |lengths| == NonNulls(offsets, |offsets|) && Chained(Windows(offsets, lengths), None) && k < |offsets|
    ensures offsets[k].None? ==> Windows(offsets, lengths)[k] == None
    ensures offsets[k].Some? ==> NonNulls(offsets, k) < |lengths|
    ensures offsets[k].Some? ==>
      var window := Window(offsets[k].value, lengths[NonNulls(offsets, k)]);
      && Windows(offsets, lengths)[k] == Some(window)
      && Follows(LastWindow(Windows(offsets, lengths), None, k), window)
  {
    hide NonNulls, LastWindow;
    NonNullsStep(offsets, k);
    NonNullsMono(offsets, k + 1, |offsets|);
  }

  lemma NoneYet(offsets: seq<Option<nat>>)
    ensures NonNulls(offsets, 0) == 0
  {
  }

  /** Contiguous windows begin where the lengths before them add up to. */
  lemma {:induction false} ContiguousSum(d: seq<Window>, sizes: seq<nat>, k: nat)
    requires Contiguous(d) && |sizes| == |d| && (forall i :: 0 <= i < |d| ==> sizes[i] == d[i].length) && k < |d|
    ensures d[k].offset == d[0].offset + Sum(sizes[..k])
  {
    hide Sum;
    if k == 0 {
      SumAll(sizes);
    } else {
      ContiguousSum(d, sizes, k - 1);
      SumNext(sizes, k - 1);
    }
  }

  /** Sizes and offsets of maps stored one after the other. */
  method LayOut(distinct: seq<Window>) returns (sizes: seq<nat>, offsets: seq<nat>)
    ensures |sizes| == |offsets| == |distinct|
    ensures forall i :: 0 <= i < |distinct| ==> sizes[i] == distinct[i].length && offsets[i] == Sum(sizes[..i])
  {
    hide Sum;
    sizes, offsets := [], [];
    var mapOffset: nat := 0;
    SumAll([]);
    for i := 0 to |distinct|
      invariant |sizes| == |offsets| == i && mapOffset == Sum(sizes)
      invariant forall j :: 0 <= j < i ==> sizes[j] == distinct[j].length && offsets[j] == Sum(sizes[..j])
    {
      SumAppend(sizes, distinct[i].length);
      ghost var before := sizes;
      sizes := sizes + [distinct[i].length];
      offsets := offsets + [mapOffset];
      assert forall j :: 0 <= j <= i ==> sizes[..j] == before[..j];
      assert before[..i] == before;
      mapOffset := mapOffset + distinct[i].length;
    }
  }

  /** The maps laid out over entries that were read `back` positions too early. */
  lemma MapsLaidOut(entries: seq<Element>, distinct: seq<Window>, endOffset: nat, back: nat, maps: ArrayVector)
    requires |distinct| > 0 && Contiguous(distinct) && back <= distinct[0].offset <= endOffset <= |entries|
    requires endOffset == distinct[|distinct| - 1].offset + distinct[|distinct| - 1].length
    requires |maps.sizes| == |maps.offsets| == |distinct|
    requires maps.elements == entries[distinct[0].offset - back..endOffset - back]
    requires forall i :: 0 <= i < |distinct| ==>
      maps.sizes[i] == distinct[i].length && maps.offsets[i] == Sum(maps.sizes[..i])
    ensures maps.Valid()
    ensures forall i :: 0 <= i < |distinct| ==>
      && back <= distinct[i].offset && distinct[i].offset + distinct[i].length <= |entries|
      && maps.At(i) == EntriesOf(distinct[i], entries, back)
  {
    hide Sum;
    var lo := distinct[0].offset - back;
    forall i | 0 <= i < |distinct|
      ensures distinct[i].offset == distinct[0].offset + maps.offsets[i] &&
        distinct[i].offset + distinct[i].length <= endOffset
    {
      ContiguousSum(distinct, maps.sizes, i);
      ContiguousMono(distinct, i, |distinct| - 1);
    }
    forall i | 0 <= i < |distinct| ensures maps.At(i) == EntriesOf(distinct[i], entries, back) {
      SliceOfSlice(entries, lo, endOffset - back, maps.offsets[i], maps.offsets[i] + maps.sizes[i]);
    }
  }

  /** The entries of a window, `back` positions too early. */
  function EntriesOf(window: Window, entries: seq<Element>, back: nat): seq<Element>
    requires back <= window.offset && window.offset + window.length <= |entries|
  {
    entries[window.offset - back..window.offset + window.length - back]
  }

  lemma {:induction false} ContiguousMono(d: seq<Window>, i: nat, j: nat)
    requires Contiguous(d) && i <= j < |d|
    ensures d[i].offset <= d[j].offset && d[i].offset + d[i].length <= d[j].offset + d[j].length
    decreases j - i
  {
    if i < j { ContiguousMono(d, i, j - 1); }
  }

  method CountNonNulls(rows: seq<Option<nat>>) returns (count: nat)
    ensures count == NonNulls(rows, |rows|)
  {
    count := 0;
    for k := 0 to |rows|
      invariant count == NonNulls(rows, k)
    {
      if rows[k].Some? { count := count + 1; }
    }
  }

  lemma NoRows(rows: seq<Option<nat>>)
    requires NonNulls(rows, |rows|) == 0
    ensures AllNull(rows)
  {
    hide NonNulls;
    forall k | 0 <= k < |rows| ensures rows[k].None? {
      NonNullsStep(rows, k);
      NonNullsMono(rows, k + 1, |rows|);
    }
  }

  /** The windows of rows [p, next). */
  function BatchOf(s: Streams, p: nat, next: nat): (w: seq<Option<Window>>)
    requires WellFormed(s) && p <= next <= |s.offsets|
    ensures |w| == next - p
  {
    Windows(s.offsets, s.lengths)[p..next]
  }

  /** What a read does to cursor and drift. */
  predicate Moved(w: seq<Option<Window>>, cursor: nat, drift: int, cursor': nat, drift': int)
    requires drift >= 0
  {
    var (lo, hi) := Span(w);
    if lo == hi then cursor' == cursor && drift' == drift else cursor' == hi && drift' == Back(lo, hi, cursor, drift)
  }

  lemma {:induction false} NoneFirst(w: seq<Option<Window>>, k: nat)
    requires AllNull(w) && k <= |w|
    ensures FirstWindow(w, k) == None
  {
    if k > 0 { NoneFirst(w, k - 1); }
  }

  lemma NoSpan(w: seq<Option<Window>>)
    requires AllNull(w)
    ensures Span(w) == (0, 0)
  {
    NoneFirst(w, |w|);
  }

  /** Spreading rows does not change where their entries begin and end. */
  lemma SpreadSpan(part: seq<Option<Window>>, scatter: seq<bool>)
    requires CountTrue(scatter) == |part|
    ensures Span(Spread(part, scatter)) == Span(part)
  {
    hide CountTrue, Merge, Rank;
    RankAll(scatter);
    SpreadEnds(part, scatter, |scatter|);
  }

  lemma {:induction false} SpreadEnds(part: seq<Option<Window>>, scatter: seq<bool>, k: nat)
    requires CountTrue(scatter) == |part| && k <= |scatter|
    ensures Rank(scatter, k) <= |part|
    ensures FirstWindow(Spread(part, scatter), k) == FirstWindow(part, Rank(scatter, k))
    ensures LastWindow(Spread(part, scatter), None, k) == LastWindow(part, None, Rank(scatter, k))
  {
    hide CountTrue, Merge;
    RankMono(scatter, k, |scatter|);
    RankAll(scatter);
    if k > 0 {
      SpreadEnds(part, scatter, k - 1);
      RankNext(scatter, k - 1);
      MergeAt(scatter, part, Repeat(None, |scatter| - |part|), k - 1);
    }
  }

  /** The windows of a batch are well formed by themselves and stand for the rows of the batch. */
  lemma BatchWindows(s: Streams, p: nat, n: nat, scatter: seq<bool>)
    requires WellFormed(s) && p + n <= |s.offsets| && CountTrue(scatter) == n
    ensures
      var rows := Spread(s.offsets[p..p + n], scatter);
      var from, to := NonNulls(s.offsets, p), NonNulls(s.offsets, p + n);
      && from <= to <= |s.lengths| && NonNulls(rows, |rows|) == to - from
      && (var w := Windows(rows, s.lengths[from..to]);
          && w == Spread(BatchOf(s, p, p + n), scatter) && Chained(w, None) && Within(w, |s.entries|)
          && Maps(w, s.entries) == Spread(Rows(s)[p..p + n], scatter))
  {
    hide CountTrue, Merge, Rank, NonNulls, Chained, Windows, Maps;
    var all := Windows(s.offsets, s.lengths);
    SpreadWindows(s, p, n, scatter);
    SpreadChained(all, p, n, scatter);
    SpreadMaps(all, s.entries, p, n, scatter);
  }

  lemma SpreadMaps(w: seq<Option<Window>>, entries: seq<Element>, p: nat, n: nat, scatter: seq<bool>)
    requires Within(w, |entries|) && p + n <= |w| && CountTrue(scatter) == n
    ensures Within(Spread(w[p..p + n], scatter), |entries|)
    ensures Maps(Spread(w[p..p + n], scatter), entries) == Spread(Maps(w, entries)[p..p + n], scatter)
  {
    hide CountTrue, Merge, Rank;
    var part, all := Spread(w[p..p + n], scatter), Maps(w, entries);
    RankAll(scatter);
    forall k | 0 <= k < |part| && part[k].Some? ensures part[k].value.offset + part[k].value.length <= |entries| {
      MergeAt(scatter, w[p..p + n], Repeat(None, |scatter| - n), k);
      assert part[k] == w[p + Rank(scatter, k)];
    }
    var maps, spread := Maps(part, entries), Spread(all[p..p + n], scatter);
    forall k | 0 <= k < |part| ensures maps[k] == spread[k] {
      MergeAt(scatter, w[p..p + n], Repeat(None, |scatter| - n), k);
      MergeAt(scatter, all[p..p + n], Repeat(None, |scatter| - n), k);
      if scatter[k] { assert part[k] == w[p + Rank(scatter, k)]; }
    }
  }

  /** How many positions too early a read of entries [lo, hi) begins; a seek backwards starts over. */
  function Back(lo: nat, hi: nat, cursor: nat, drift: nat): nat
  {
    if lo == hi || lo < cursor then 0 else drift
  }

  /**
    The keys and values are read as one stream of entries at `keysPosition`.  The reader takes them to be at
    `cursorPos`; after a reset they are not.
   */
  class SlidingWindowMapReader {
    const streams: Streams
    var offsetsPosition: nat
    var lengthsPosition: nat
    var keysPosition: nat
    var cursorPos: nat

    constructor (streams: Streams)
      requires WellFormed(streams)
      ensures Valid() && offsetsPosition == 0 && this.streams == streams && cursorPos == Drift() == 0
    {
      this.streams := streams;
      offsetsPosition, lengthsPosition, keysPosition, cursorPos := 0, 0, 0, 0;
    }

    ghost predicate Valid()
      reads this
    {
      && WellFormed(streams) && offsetsPosition <= |streams.offsets|
      && lengthsPosition == NonNulls(streams.offsets, offsetsPosition)
      && keysPosition <= cursorPos <= |streams.entries|
    }

    ghost function Drift(): int
      reads this
    {
      cursorPos - keysPosition
    }

    /** Moves the readers of keys and values to `offset`; going back means starting over. */
    method Seek(offset: nat)
      requires Valid() && offset <= |streams.entries|
      modifies `keysPosition, `cursorPos
      ensures Valid() && cursorPos == offset
      ensures Drift() == if offset < old(cursorPos) then 0 else old(Drift())
    {
      if offset == cursorPos { return; }
      if offset < cursorPos {
        keysPosition := 0;
        keysPosition := keysPosition + offset;
      } else {
        keysPosition := keysPosition + (offset - cursorPos);
      }
      cursorPos := offset;
    }

    /** The keys and values start over; the cursor stays where it was. */
    method Reset()
      requires Valid()
      modifies this
      ensures Valid() && offsetsPosition == 0 && cursorPos == old(cursorPos) == Drift()
    {
      offsetsPosition, lengthsPosition, keysPosition := 0, 0, 0;
    }

    method Next(count: nat, scatter: seq<bool>) returns (indices: seq<int>, values: ArrayVector, nonNulls: seq<bool>)
      requires Valid() && offsetsPosition + count <= |streams.offsets| && CountTrue(scatter) == count
      modifies this
      ensures Valid() && offsetsPosition == old(offsetsPosition) + count
      ensures |indices| == |nonNulls| == |scatter| && values.Valid()
      ensures
        var part := BatchOf(streams, old(offsetsPosition), offsetsPosition);
        var rows, back := Spread(part, scatter), Back(Span(part).0, Span(part).1, old(cursorPos), old(Drift()));
        && Moved(part, old(cursorPos), old(Drift()), cursorPos, Drift())
        && forall k :: 0 <= k < |rows| ==>
          && nonNulls[k] == rows[k].Some?
          && (nonNulls[k] ==>
            && back <= rows[k].value.offset && rows[k].value.offset + rows[k].value.length <= |streams.entries|
            && 0 <= indices[k] < |values.sizes|
            && values.At(indices[k]) == EntriesOf(rows[k].value, streams.entries, back))
    {
      hide WellFormed, Rows, NonNulls, CountTrue, Merge, Chained, Span, EntriesOf;
      var rows := Spread(streams.offsets[offsetsPosition..offsetsPosition + count], scatter);
      nonNulls := seq(|rows|, k requires 0 <= k < |rows| => rows[k].Some?);
      ghost var p := offsetsPosition;
      BatchWindows(streams, p, count, scatter);
      SpreadSpan(BatchOf(streams, p, p + count), scatter);
      ghost var to := NonNulls(streams.offsets, p + count);
      var nonNullCount := CountNonNulls(rows);
      offsetsPosition := offsetsPosition + count;
      values := ArrayVector([], [], []);
      indices := seq(|rows|, _ => 0);
      if nonNullCount == 0 {
        NoRows(rows);
        NoSpan(Windows(rows, []));
        return;
      }
      var lengthBuffer := streams.lengths[lengthsPosition..lengthsPosition + nonNullCount];
      lengthsPosition := lengthsPosition + nonNullCount;
      var distinct, endOffset;
      indices, distinct, endOffset := Deduplicate(rows, lengthBuffer);
      LastWithin(Windows(rows, lengthBuffer), |streams.entries|, |rows|);
      values := ReadWindows(distinct, endOffset);
    }

    /** Lays out the distinct maps and reads their entries with one seek. */
    method ReadWindows(distinct: seq<Window>, endOffset: nat) returns (maps: ArrayVector)
      requires Valid() && |distinct| > 0 && Contiguous(distinct) && endOffset <= |streams.entries|
      requires endOffset == distinct[|distinct| - 1].offset + distinct[|distinct| - 1].length
      modifies `keysPosition, `cursorPos
      ensures Valid() && maps.Valid() && |maps.sizes| == |distinct|
      ensures
        var lo, back := distinct[0].offset, Back(distinct[0].offset, endOffset, old(cursorPos), old(Drift()));
        && (if lo == endOffset then cursorPos == old(cursorPos) && Drift() == old(Drift())
            else cursorPos == endOffset && Drift() == back)
        && forall i :: 0 <= i < |distinct| ==>
          && back <= distinct[i].offset && distinct[i].offset + distinct[i].length <= |streams.entries|
          && maps.At(i) == EntriesOf(distinct[i], streams.entries, back)
    {
      hide WellFormed, NonNulls, Sum, EntriesOf, ArrayVector.At, ArrayVector.Valid, Back;
      var sizes, offsets := LayOut(distinct);
      ghost var n := |distinct| - 1;
      ContiguousMono(distinct, 0, n);
      var startOffset := distinct[0].offset;
      ghost var back := Back(startOffset, endOffset, cursorPos, Drift());
      hide Contiguous;
      var entries := ReadEntries(startOffset, endOffset);
      maps := ArrayVector(offsets, sizes, entries);
      MapsLaidOut(streams.entries, distinct, endOffset, back, maps);
    }

    /** One seek and one read, if there is anything to read. */
    method ReadEntries(startOffset: nat, endOffset: nat) returns (entries: seq<Element>)
      requires Valid() && startOffset <= endOffset <= |streams.entries|
      modifies `keysPosition, `cursorPos
      ensures Valid()
      ensures
        var back := Back(startOffset, endOffset, old(cursorPos), old(Drift()));
        && back <= startOffset && entries == streams.entries[startOffset - back..endOffset - back]
        && if startOffset == endOffset then cursorPos == old(cursorPos) && Drift() == old(Drift())
           else cursorPos == endOffset && Drift() == back
    {
      hide WellFormed, NonNulls;
      var childrenRows := endOffset - startOffset;
      entries := [];
      if childrenRows > 0 {
        Seek(startOffset);
        entries := streams.entries[keysPosition..keysPosition + childrenRows];
        keysPosition := keysPosition + childrenRows;
        cursorPos := endOffset;
      }
    }

    method Skip(count: nat)
      requires Valid() && offsetsPosition + count <= |streams.offsets|
      modifies `offsetsPosition, `lengthsPosition
      ensures Valid() && offsetsPosition == old(offsetsPosition) + count
    {
      hide WellFormed, NonNulls;
      var left := count;
      while left > 0
        invariant Valid() && left >= 0 && offsetsPosition + left == old(offsetsPosition) + count
      {
        var skipSize := if left < SKIP_BATCH_SIZE then left else SKIP_BATCH_SIZE;
        var nonNullCount := CountNonNulls(streams.offsets[offsetsPosition..offsetsPosition + skipSize]);
        NonNullsSlice(streams.offsets, offsetsPosition, offsetsPosition + skipSize, skipSize);
        lengthsPosition := lengthsPosition + nonNullCount;
        offsetsPosition := offsetsPosition + skipSize;
        left := left - skipSize;
      }
    }
  }

  const SKIP_BATCH_SIZE := 1024

  lemma {:induction false} NonNullsSlice(offsets: seq<Option<nat>>, i: nat, j: nat, k: nat)
    requires i <= j <= |offsets| && k <= j - i
    ensures NonNulls(offsets[i..j], k) == NonNulls(offsets, i + k) - NonNulls(offsets, i)
    decreases k
  {
    if k > 0 { NonNullsSlice(offsets, i, j, k - 1); }
  }

  lemma SumAppend(sizes: seq<nat>, n: nat)
    ensures Sum(sizes + [n]) == Sum(sizes) + n
  {
    SumConcat(sizes, [n]);
    assert Sum([n][1..]) == 0;
  }

  // ----- whole runs

  /** Entries [lo, hi) are also the ones `back` positions earlier. */
  predicate Coincide(entries: seq<Element>, lo: nat, hi: nat, back: nat)
  {
    back <= lo <= hi <= |entries| && entries[lo - back..hi - back] == entries[lo..hi]
  }

  /**
    When a run is read right.  `drift`: the reader takes the entries to be at `cursor`, but they are that much
    behind.  A read that does not go back gets the entries that far back, which must happen to be the right ones.
   */
  predicate Exact(s: Streams, p: nat, cursor: nat, drift: nat, steps: seq<ReadStep>)
    requires WellFormed(s) && InBounds(|s.offsets|, p, steps)
    decreases |steps|
  {
    steps == [] ||
    (var next := p + steps[0].Count();
     match steps[0]
     case Skipping(_) => Exact(s, next, cursor, drift, steps[1..])
     case Take(_) =>
       var (lo, hi) := Span(BatchOf(s, p, next));
       var back := Back(lo, hi, cursor, drift);
       && Coincide(s.entries, lo, hi, back)
       && if lo == hi then Exact(s, next, cursor, drift, steps[1..]) else Exact(s, next, hi, back, steps[1..]))
  }

  /** Where the cursor is after a run. */
  function CursorAfter(s: Streams, p: nat, cursor: nat, steps: seq<ReadStep>): nat
    requires WellFormed(s) && InBounds(|s.offsets|, p, steps)
    decreases |steps|
  {
    if steps == [] then cursor
    else
      var next := p + steps[0].Count();
      var span := Span(BatchOf(s, p, next));
      var stays := steps[0].Skipping? || span.0 == span.1;
      CursorAfter(s, next, if stays then cursor else span.1, steps[1..])
  }

  /** Runs with resets: every reset puts the entries back to their start, and the cursor drifts by all it has. */
  predicate ExactPasses(s: Streams, cursor: nat, drift: nat, passes: seq<seq<ReadStep>>)
    requires WellFormed(s) && PassesInBounds(|s.offsets|, passes)
    decreases |passes|
  {
    passes == [] ||
    (var after := CursorAfter(s, 0, cursor, passes[0]);
     Exact(s, 0, cursor, drift, passes[0]) && ExactPasses(s, after, after, passes[1..]))
  }

  // ----- one read

  /** Windows in a chain lie between the first and the last. */
  lemma {:induction false} Between(w: seq<Option<Window>>, k: nat)
    requires Chained(w, None) && k <= |w|
    ensures FirstWindow(w, k).Some? == LastWindow(w, None, k).Some?
    ensures FirstWindow(w, k).Some? ==> FirstWindow(w, k).value.offset <= LastWindow(w, None, k).value.offset
    ensures forall j :: 0 <= j < k && w[j].Some? ==>
      && FirstWindow(w, k).Some? && FirstWindow(w, k).value.offset <= w[j].value.offset
      && w[j].value.offset + w[j].value.length <=
        LastWindow(w, None, k).value.offset + LastWindow(w, None, k).value.length
  {
    if k > 0 {
      Between(w, k - 1);
      if w[k - 1].Some? { assert Follows(LastWindow(w, None, k - 1), w[k - 1].value); }
    }
  }

  /** They leave no gap. */
  lemma {:induction false} Covers(w: seq<Option<Window>>, k: nat, x: nat) returns (j: nat)
    requires Chained(w, None) && k <= |w| && FirstWindow(w, k).Some? && LastWindow(w, None, k).Some?
    requires FirstWindow(w, k).value.offset <= x
    requires x < LastWindow(w, None, k).value.offset + LastWindow(w, None, k).value.length
    ensures j < k && w[j].Some? && w[j].value.offset <= x < w[j].value.offset + w[j].value.length
    decreases k
  {
    Between(w, k - 1);
    var last := LastWindow(w, None, k - 1);
    if w[k - 1].Some? {
      assert Follows(last, w[k - 1].value);
      if w[k - 1].value.offset <= x { return k - 1; }
    }
    j := Covers(w, k - 1, x);
  }

  /** The rows that the windows of a batch give `back` positions too early. */
  ghost predicate GivenRows(
      rows: seq<Option<seq<Element>>>, w: seq<Option<Window>>, entries: seq<Element>, back: nat)
  {
    |rows| == |w| && forall k :: 0 <= k < |w| ==>
      && rows[k].Some? == w[k].Some?
      && (w[k].Some? ==>
        && back <= w[k].value.offset && w[k].value.offset + w[k].value.length <= |entries|
        && rows[k].value == EntriesOf(w[k].value, entries, back))
  }

  /** They are the rows themselves exactly if the entries coincide. */
  lemma GivenRight(rows: seq<Option<seq<Element>>>, w: seq<Option<Window>>, entries: seq<Element>, back: nat)
    requires Chained(w, None) && Within(w, |entries|) && GivenRows(rows, w, entries, back)
    requires Span(w).0 == Span(w).1 ==> back == 0
    ensures rows == Maps(w, entries) <==> Coincide(entries, Span(w).0, Span(w).1, back)
  {
    hide LastWindow, FirstWindow, Chained;
    var lo, hi := Span(w).0, Span(w).1;
    Between(w, |w|);
    SpanWithin(w, |entries|);
    if lo < hi {
      var j := Covers(w, |w|, lo);
      if rows == Maps(w, entries) { RowsCoincide(rows, w, entries, back); }
    }
    if Coincide(entries, lo, hi, back) {
      forall k | 0 <= k < |w| && w[k].Some?
        ensures EntriesOf(w[k].value, entries, back) == EntriesOf(w[k].value, entries, 0)
      {
        SliceOfSlice(entries, lo - back, hi - back, w[k].value.offset - lo,
          w[k].value.offset + w[k].value.length - lo);
        SliceOfSlice(entries, lo, hi, w[k].value.offset - lo, w[k].value.offset + w[k].value.length - lo);
      }
      assert rows == Maps(w, entries);
    }
  }

  lemma SpanWithin(w: seq<Option<Window>>, size: nat)
    requires Chained(w, None) && Within(w, size)
    ensures Span(w).0 <= Span(w).1 <= size
  {
    hide Chained;
    Between(w, |w|);
    LastWithin(w, size, |w|);
  }

  lemma RowsCoincide(rows: seq<Option<seq<Element>>>, w: seq<Option<Window>>, entries: seq<Element>, back: nat)
    requires Chained(w, None) && Within(w, |entries|) && GivenRows(rows, w, entries, back)
    requires Span(w).0 < Span(w).1 <= |entries| && rows == Maps(w, entries)
    ensures Coincide(entries, Span(w).0, Span(w).1, back)
  {
    hide LastWindow, FirstWindow, Chained;
    var lo, hi := Span(w).0, Span(w).1;
    Between(w, |w|);
    var first := Covers(w, |w|, lo);
    assert back <= w[first].value.offset <= lo;
    var got, expected := entries[lo - back..hi - back], entries[lo..hi];
    forall i | 0 <= i < hi - lo ensures got[i] == expected[i] {
      var j := Covers(w, |w|, lo + i);
      var window := w[j].value;
      var k := lo + i - window.offset;
      assert rows[j].value == Maps(w, entries)[j].value;
      assert EntriesOf(window, entries, back)[k] == entries[lo + i - back];
      assert entries[window.offset..window.offset + window.length][k] == entries[lo + i];
    }
  }

  method UnwrapMaps(indices: seq<int>, values: ArrayVector,
        nonNulls: seq<bool>)
    returns (rows: seq<Option<seq<Element>>>)
    requires |indices| == |nonNulls| && values.Valid()
    requires forall k :: 0 <= k < |indices| && nonNulls[k] ==> 0 <= indices[k] < |values.sizes|
    ensures |rows| == |indices|
    ensures forall k :: 0 <= k < |rows| ==> rows[k] == if nonNulls[k] then Some(values.At(indices[k])) else None
  {
    rows := seq(|indices|, k requires 0 <= k < |indices| => if nonNulls[k] then Some(values.At(indices[k])) else None);
  }

  /** One read of a run. */
  method ReadRows(r: SlidingWindowMapReader, scatter: seq<bool>)
    returns (rows: seq<Option<seq<Element>>>, ghost right: bool)
    requires r.Valid() && r.offsetsPosition + CountTrue(scatter) <= |r.streams.offsets|
    modifies r
    ensures r.Valid() && r.offsetsPosition == old(r.offsetsPosition) + CountTrue(scatter) && |rows| == |scatter|
    ensures
      var part := BatchOf(r.streams, old(r.offsetsPosition), r.offsetsPosition);
      var (lo, hi) := Span(part);
      && right == Coincide(r.streams.entries, lo, hi, Back(lo, hi, old(r.cursorPos), old(r.Drift())))
      && Moved(part, old(r.cursorPos), old(r.Drift()), r.cursorPos, r.Drift())
    ensures
      var part := Rows(r.streams)[old(r.offsetsPosition)..r.offsetsPosition];
      right <==> rows == Merge(scatter, part, Repeat(None, |scatter| - |part|))
  {
    hide WellFormed, Rows, NonNulls, CountTrue, Merge, Chained, Span, EntriesOf, Maps, Coincide, Moved, Windows, Within;
    ghost var s, p, next := r.streams, r.offsetsPosition, r.offsetsPosition + CountTrue(scatter);
    ghost var part, cursor, drift := BatchOf(s, p, next), r.cursorPos, r.Drift();
    ghost var back := Back(Span(part).0, Span(part).1, cursor, drift);
    BatchWindows(s, p, CountTrue(scatter), scatter);
    SpreadSpan(part, scatter);
    var indices, values, nonNulls := r.Next(CountTrue(scatter), scatter);
    rows := UnwrapMaps(indices, values, nonNulls);
    right := Coincide(s.entries, Span(part).0, Span(part).1, back);
    GivenRight(rows, Spread(part, scatter), s.entries, back);
  }

  lemma TakeStep(
      s: Streams, p: nat, next: nat, cursor: nat, drift: nat, rest: seq<ReadStep>, right: bool, cursor': nat,
      drift': nat)
    requires WellFormed(s) && rest != [] && rest[0].Take? && next == p + rest[0].Count() <= |s.offsets|
    requires InBounds(|s.offsets|, p, rest) && InBounds(|s.offsets|, next, rest[1..])
    requires Moved(BatchOf(s, p, next), cursor, drift, cursor', drift')
    requires
      var (lo, hi) := Span(BatchOf(s, p, next));
      right == Coincide(s.entries, lo, hi, Back(lo, hi, cursor, drift))
    ensures !right ==> !Exact(s, p, cursor, drift, rest)
    ensures right ==> Exact(s, p, cursor, drift, rest) == Exact(s, next, cursor', drift', rest[1..])
    ensures CursorAfter(s, p, cursor, rest) == CursorAfter(s, next, cursor', rest[1..])
  {
    hide WellFormed, Span, BatchOf, Coincide, CountTrue;
  }

  lemma SkipStep(s: Streams, p: nat, next: nat, cursor: nat, drift: nat, rest: seq<ReadStep>)
    requires WellFormed(s) && rest != [] && rest[0].Skipping? && next == p + rest[0].Count() <= |s.offsets|
    requires InBounds(|s.offsets|, p, rest) && InBounds(|s.offsets|, next, rest[1..])
    ensures Exact(s, p, cursor, drift, rest) == Exact(s, next, cursor, drift, rest[1..])
    ensures CursorAfter(s, p, cursor, rest) == CursorAfter(s, next, cursor, rest[1..])
  {
    hide WellFormed, Span, BatchOf, Coincide;
  }

  lemma EndOfSteps(rows: seq<Option<seq<Element>>>, s: Streams, p: nat, cursor: nat, drift: nat)
    requires WellFormed(s) && InBounds(|s.offsets|, p, []) && InBounds(|rows|, p, [])
    ensures Exact(s, p, cursor, drift, []) && CursorAfter(s, p, cursor, []) == cursor && Expected(rows, p, []) == []
  {
  }

  lemma StreamsWellFormed(r: SlidingWindowMapReader)
    requires r.Valid()
    ensures WellFormed(r.streams)
  {
  }

  /** A run of reads and skips returns the rows exactly under the condition above. */
  method ReadRun(r: SlidingWindowMapReader, steps: seq<ReadStep>) returns (outputs: seq<seq<Option<seq<Element>>>>)
    requires r.Valid() && InBounds(|r.streams.offsets|, r.offsetsPosition, steps)
    modifies r
    ensures r.Valid()
    ensures outputs == Expected(Rows(r.streams), old(r.offsetsPosition), steps) <==>
      Exact(r.streams, old(r.offsetsPosition), old(r.cursorPos), old(r.Drift()), steps)
    ensures r.cursorPos == CursorAfter(r.streams, old(r.offsetsPosition), old(r.cursorPos), steps)
  {
    hide NonNulls, CountTrue, Rows, WellFormed, Merge, Exact, CursorAfter, Expected, InBounds, Span, BatchOf, Moved;
    outputs := [];
    StreamsWellFormed(r);
    ghost var s := r.streams;
    ghost var whole := Expected(Rows(s), r.offsetsPosition, steps);
    ghost var exact := Exact(s, r.offsetsPosition, r.cursorPos, r.Drift(), steps);
    ghost var after, right := CursorAfter(s, r.offsetsPosition, r.cursorPos, steps), true;
    assert steps[0..] == steps && [] + whole == whole;
    for i := 0 to |steps|
      invariant r.Valid() && InBounds(|s.offsets|, r.offsetsPosition, steps[i..])
      invariant after == CursorAfter(s, r.offsetsPosition, r.cursorPos, steps[i..])
      invariant right ==> exact == Exact(s, r.offsetsPosition, r.cursorPos, r.Drift(), steps[i..])
      invariant right ==> whole == outputs + Expected(Rows(s), r.offsetsPosition, steps[i..])
      invariant !right ==> !exact && Differ(outputs, whole)
    {
      ghost var rest, before, p, cursor, drift := steps[i..], outputs, r.offsetsPosition, r.cursorPos, r.Drift();
      assert rest[0] == steps[i] && rest[1..] == steps[i + 1..];
      NextStep(Rows(s), p, rest);
      match steps[i] {
        case Take(scatter) =>
          var rows;
          ghost var good;
          rows, good := ReadRows(r, scatter);
          TakeStep(s, p, r.offsetsPosition, cursor, drift, rest, good, r.cursorPos, r.Drift());
          outputs := outputs + [rows];
          if right { RowsAgree(before, whole, rows, Expected(Rows(s), p, rest)); }
          else { DifferMore(before, whole, rows); }
          right := right && good;
        case Skipping(n) =>
          r.Skip(n);
          SkipStep(s, p, r.offsetsPosition, cursor, drift, rest);
      }
    }
    EndOfSteps(Rows(s), s, r.offsetsPosition, r.cursorPos, r.Drift());
    assert steps[|steps|..] == [] && outputs + [] == outputs;
  }

  /** A run with resets: pass after pass from row 0 on. */
  method ReadPasses(r: SlidingWindowMapReader, passes: seq<seq<ReadStep>>)
    returns (outputs: seq<seq<seq<Option<seq<Element>>>>>)
    requires r.Valid() && r.offsetsPosition == 0 && PassesInBounds(|r.streams.offsets|, passes)
    modifies r
    ensures r.Valid()
    ensures outputs == ExpectedPasses(Rows(r.streams), passes) <==>
      ExactPasses(r.streams, old(r.cursorPos), old(r.Drift()), passes)
  {
    hide Exact, CursorAfter, Expected, WellFormed, Rows, InBounds;
    outputs := [];
    StreamsWellFormed(r);
    ghost var s := r.streams;
    ghost var whole := ExpectedPasses(Rows(s), passes);
    ghost var exact, right := ExactPasses(s, r.cursorPos, r.Drift(), passes), true;
    assert passes[0..] == passes && [] + whole == whole;
    for i := 0 to |passes|
      invariant r.Valid() && r.offsetsPosition == 0
      invariant right ==> exact == ExactPasses(s, r.cursorPos, r.Drift(), passes[i..])
      invariant right ==> whole == outputs + ExpectedPasses(Rows(s), passes[i..])
      invariant !right ==> !exact && Differ(outputs, whole)
    {
      ghost var rest, before, cursor, drift := passes[i..], outputs, r.cursorPos, r.Drift();
      assert rest[0] == passes[i] && rest[1..] == passes[i + 1..];
      var output := ReadRun(r, passes[i]);
      ghost var good := Exact(s, 0, cursor, drift, passes[i]);
      outputs := outputs + [output];
      if right { RowsAgree(before, whole, output, ExpectedPasses(Rows(s), rest)); }
      else { DifferMore(before, whole, output); }
      right := right && good;
      r.Reset();
    }
    assert passes[|passes|..] == [] && outputs + [] == outputs;
  }

  // ----- when a run is safe

  /** Null or empty: there is nothing to fetch. */
  predicate NoEntries(rows: seq<Option<seq<Element>>>)
  {
    forall k :: 0 <= k < |rows| && rows[k].Some? ==> rows[k].value == []
  }

  /** No map with entries is skipped before the first one that is read. */
  predicate Careful(rows: seq<Option<seq<Element>>>, p: nat, steps: seq<ReadStep>)
    requires InBounds(|rows|, p, steps)
    decreases |steps|
  {
    steps == [] ||
    (var next := p + steps[0].Count();
     match steps[0]
     case Skipping(_) => NoEntries(rows[p..next]) && Careful(rows, next, steps[1..])
     case Take(_) => !NoEntries(rows[p..next]) || Careful(rows, next, steps[1..]))
  }

  lemma {:induction false} OnlyReadsAreCareful(rows: seq<Option<seq<Element>>>, p: nat, steps: seq<ReadStep>)
    requires InBounds(|rows|, p, steps) && forall k :: 0 <= k < |steps| ==> steps[k].Take?
    ensures Careful(rows, p, steps)
    decreases |steps|
  {
    if steps != [] { OnlyReadsAreCareful(rows, p + steps[0].Count(), steps[1..]); }
  }

  predicate CarefulPasses(rows: seq<Option<seq<Element>>>, passes: seq<seq<ReadStep>>)
    requires PassesInBounds(|rows|, passes)
  {
    forall i :: 0 <= i < |passes| ==> Careful(rows, 0, passes[i])
  }

  /** The windows of a batch are chained, and the rows are their maps. */
  lemma BatchParts(s: Streams, p: nat, next: nat)
    requires WellFormed(s) && p <= next <= |s.offsets|
    ensures
      var part := BatchOf(s, p, next);
      Chained(part, None) && Within(part, |s.entries|) && Rows(s)[p..next] == Maps(part, s.entries)
  {
    hide CountTrue, Merge, Chained, Windows;
    var scatter := Repeat(true, next - p);
    SpreadAll(BatchOf(s, p, next));
    SpreadAll(Rows(s)[p..next]);
    BatchWindows(s, p, next - p, scatter);
  }

  /** Without drift every run is read right. */
  lemma {:induction false} NoDriftExact(s: Streams, p: nat, cursor: nat, steps: seq<ReadStep>)
    requires WellFormed(s) && InBounds(|s.offsets|, p, steps)
    ensures Exact(s, p, cursor, 0, steps)
    decreases |steps|
  {
    hide WellFormed, Span, BatchOf, CountTrue, Chained;
    if steps != [] {
      var next := p + steps[0].Count();
      NextInBounds(|s.offsets|, p, steps);
      match steps[0] {
        case Skipping(_) => NoDriftExact(s, next, cursor, steps[1..]);
        case Take(_) =>
          var part := BatchOf(s, p, next);
          BatchParts(s, p, next);
          SpanWithin(part, |s.entries|);
          NoDriftExact(s, next, if Span(part).0 == Span(part).1 then cursor else Span(part).1, steps[1..]);
      }
    }
  }

  lemma NextInBounds(rowCount: nat, p: nat, steps: seq<ReadStep>)
    requires InBounds(rowCount, p, steps) && steps != []
    ensures p <= p + steps[0].Count() <= rowCount && InBounds(rowCount, p + steps[0].Count(), steps[1..])
  {
    hide CountTrue;
  }

  /** Windows without entries stay where the first one is. */
  lemma {:induction false} EmptyWindows(w: seq<Option<Window>>, k: nat)
    requires Chained(w, None) && k <= |w| && forall j :: 0 <= j < k && w[j].Some? ==> w[j].value.length == 0
    ensures FirstWindow(w, k).Some? == LastWindow(w, None, k).Some?
    ensures FirstWindow(w, k).Some? ==>
      FirstWindow(w, k).value.offset == LastWindow(w, None, k).value.offset && LastWindow(w, None, k).value.length == 0
  {
    if k > 0 {
      EmptyWindows(w, k - 1);
      if w[k - 1].Some? { assert Follows(LastWindow(w, None, k - 1), w[k - 1].value); }
    }
  }

  /** A batch has no entries exactly if they end where they begin. */
  lemma EmptySpan(w: seq<Option<Window>>, entries: seq<Element>)
    requires Chained(w, None) && Within(w, |entries|)
    ensures NoEntries(Maps(w, entries)) <==> Span(w).0 == Span(w).1
  {
    hide LastWindow, FirstWindow, Chained;
    Between(w, |w|);
    if NoEntries(Maps(w, entries)) {
      forall j | 0 <= j < |w| && w[j].Some? ensures w[j].value.length == 0 { assert Maps(w, entries)[j].value == []; }
      EmptyWindows(w, |w|);
    }
  }

  /** Where the entries of the first map of a chain begin. */
  function Begin(w: seq<Option<Window>>): nat
  {
    if FirstWindow(w, |w|).Some? then FirstWindow(w, |w|).value.offset else 0
  }

  /** A batch after rows without entries begins where all begin, and none begins before that. */
  lemma {:induction false} BeginOfBatch(w: seq<Option<Window>>, p: nat, next: nat)
    requires Chained(w, None) && p <= next <= |w|
    ensures FirstWindow(w[p..next], next - p).Some? ==> Begin(w) <= FirstWindow(w[p..next], next - p).value.offset
    ensures
      FirstWindow(w[p..next], next - p).Some? && (forall j :: 0 <= j < p && w[j].Some? ==> w[j].value.length == 0) ==>
      Begin(w) == FirstWindow(w[p..next], next - p).value.offset
  {
    hide Chained;
    Between(w, |w|);
    if FirstWindow(w[p..next], next - p).Some? {
      var j := FirstAt(w[p..next], next - p);
      assert w[p + j] == w[p..next][j];
      if forall i :: 0 <= i < p && w[i].Some? ==> w[i].value.length == 0 {
        forall i | p <= i < p + j ensures w[i].None? { assert w[i] == w[p..next][i - p]; }
        FirstInChain(w, p + j);
      }
    }
  }

  lemma {:induction false} FirstAt(w: seq<Option<Window>>, k: nat) returns (j: nat)
    requires k <= |w| && FirstWindow(w, k).Some?
    ensures j < k && w[j] == FirstWindow(w, k) && forall i :: 0 <= i < j ==> w[i].None?
  {
    j := 0;
    NoneBefore(w, 0);
    while w[j].None?
      invariant 0 <= j < k && forall i :: 0 <= i < j ==> w[i].None?
      decreases k - j
    {
      NoneBefore(w, j + 1);
      j := j + 1;
    }
    NoneBefore(w, j);
    FirstStays(w, j + 1, k);
  }

  lemma {:induction false} NoneBefore(w: seq<Option<Window>>, k: nat)
    requires k <= |w| && forall i :: 0 <= i < k ==> w[i].None?
    ensures FirstWindow(w, k) == None
  {
    if k > 0 { NoneBefore(w, k - 1); }
  }

  lemma {:induction false} FirstStays(w: seq<Option<Window>>, j: nat, k: nat)
    requires j <= k <= |w| && FirstWindow(w, j).Some?
    ensures FirstWindow(w, k) == FirstWindow(w, j)
    decreases k
  {
    if j < k { FirstStays(w, j, k - 1); }
  }

  /** The first window with entries begins where the first window of all begins. */
  lemma FirstInChain(w: seq<Option<Window>>, k: nat)
    requires Chained(w, None) && k < |w| && w[k].Some?
    requires forall i :: 0 <= i < k && w[i].Some? ==> w[i].value.length == 0
    ensures Begin(w) == w[k].value.offset
  {
    EmptyWindows(w, k);
    assert Follows(LastWindow(w, None, k), w[k].value);
    FirstStays(w, k + 1, |w|);
  }

  /** A cursor that has moved at all is beyond where the entries begin. */
  predicate Past(s: Streams, cursor: nat)
    requires WellFormed(s)
  {
    cursor == 0 || Begin(Windows(s.offsets, s.lengths)) < cursor
  }

  /** What a caller needs to know of a batch: the span, and where it lies. */
  lemma BatchSpan(s: Streams, p: nat, next: nat)
    requires WellFormed(s) && p <= next <= |s.offsets|
    ensures
      var (lo, hi) := Span(BatchOf(s, p, next));
      && lo <= hi <= |s.entries| && (lo == hi <==> NoEntries(Rows(s)[p..next]))
      && (lo < hi ==> Past(s, hi))
      && (lo < hi && NoEntries(Rows(s)[..p]) ==> lo == Begin(Windows(s.offsets, s.lengths)))
  {
    hide Chained, FirstWindow, LastWindow, Windows;
    var all, part := Windows(s.offsets, s.lengths), BatchOf(s, p, next);
    BatchParts(s, p, next);
    SpanWithin(part, |s.entries|);
    EmptySpan(part, s.entries);
    if NoEntries(Rows(s)[..p]) {
      forall j | 0 <= j < p && all[j].Some? ensures all[j].value.length == 0 { assert Rows(s)[..p][j].value == []; }
    }
    BeginOfBatch(all, p, next);
  }

  /** A caller can check this on the rows alone. */
  lemma {:induction false} CarefulIsExact(s: Streams, p: nat, cursor: nat, drift: nat, steps: seq<ReadStep>)
    requires WellFormed(s) && InBounds(|s.offsets|, p, steps) && p <= |s.offsets|
    requires drift <= cursor && Past(s, cursor) && NoEntries(Rows(s)[..p]) && Careful(Rows(s), p, steps)
    ensures Exact(s, p, cursor, drift, steps)
    decreases |steps|
  {
    hide WellFormed, Span, BatchOf, CountTrue, Past, Rows, NoEntries;
    if steps != [] {
      var next := p + steps[0].Count();
      NextInBounds(|s.offsets|, p, steps);
      var rows := Rows(s);
      if NoEntries(rows[p..next]) {
        NoneThenNone(rows, p, next);
        CarefulIsExact(s, next, cursor, drift, steps[1..]);
      }
      if steps[0].Take? {
        BatchSpan(s, p, next);
        PastBegin(s, cursor, Span(BatchOf(s, p, next)).0);
        if !NoEntries(rows[p..next]) { NoDriftExact(s, next, Span(BatchOf(s, p, next)).1, steps[1..]); }
      }
    }
  }

  lemma NoneThenNone(rows: seq<Option<seq<Element>>>, p: nat, next: nat)
    requires p <= next <= |rows| && NoEntries(rows[..p]) && NoEntries(rows[p..next])
    ensures NoEntries(rows[..next])
  {
    forall k | 0 <= k < next && rows[k].Some? ensures rows[k].value == [] {
      if k < p { assert rows[..p][k] == rows[k]; } else { assert rows[p..next][k - p] == rows[k]; }
    }
  }

  lemma PastBegin(s: Streams, cursor: nat, lo: nat)
    requires WellFormed(s) && Past(s, cursor)
    ensures lo == Begin(Windows(s.offsets, s.lengths)) ==> cursor == 0 || lo < cursor
  {
  }

  lemma {:induction false} CursorIsPast(s: Streams, p: nat, cursor: nat, steps: seq<ReadStep>)
    requires WellFormed(s) && InBounds(|s.offsets|, p, steps) && Past(s, cursor)
    ensures Past(s, CursorAfter(s, p, cursor, steps))
    decreases |steps|
  {
    hide WellFormed, Span, BatchOf, CountTrue, Past, Rows, NoEntries;
    if steps != [] {
      var next := p + steps[0].Count();
      NextInBounds(|s.offsets|, p, steps);
      BatchSpan(s, p, next);
      var span := Span(BatchOf(s, p, next));
      CursorIsPast(s, next, if steps[0].Skipping? || span.0 == span.1 then cursor else span.1, steps[1..]);
    }
  }

  lemma {:induction false} CarefulPassesExact(s: Streams, cursor: nat, drift: nat, passes: seq<seq<ReadStep>>)
    requires WellFormed(s) && PassesInBounds(|s.offsets|, passes) && CarefulPasses(Rows(s), passes)
    requires drift <= cursor && Past(s, cursor)
    ensures ExactPasses(s, cursor, drift, passes)
    decreases |passes|
  {
    hide Exact, Careful, CursorAfter, WellFormed, Rows, InBounds, Past;
    if passes != [] {
      assert Rows(s)[..0] == [];
      CarefulIsExact(s, 0, cursor, drift, passes[0]);
      CursorIsPast(s, 0, cursor, passes[0]);
      var after := CursorAfter(s, 0, cursor, passes[0]);
      CarefulPassesExact(s, after, after, passes[1..]);
    }
  }

  /** The order of the entries does not matter for that. */
  lemma {:induction false} CarefulSame(
      a: seq<Option<seq<Element>>>, b: seq<Option<seq<Element>>>, p: nat, steps: seq<ReadStep>)
    requires SameMaps(a, b) && |a| == |b| && InBounds(|a|, p, steps)
    ensures Careful(a, p, steps) == Careful(b, p, steps)
    decreases |steps|
  {
    hide CountTrue, SameMaps;
    if steps != [] {
      var next := p + steps[0].Count();
      NextInBounds(|a|, p, steps);
      EmptySame(a, b, p, next);
      CarefulSame(a, b, next, steps[1..]);
    }
  }

  lemma EmptySame(a: seq<Option<seq<Element>>>, b: seq<Option<seq<Element>>>, p: nat, next: nat)
    requires SameMaps(a, b) && p <= next <= |a|
    ensures NoEntries(a[p..next]) == NoEntries(b[p..next])
  {
    var x, y := a[p..next], b[p..next];
    forall k | 0 <= k < |x| ensures x[k].Some? == y[k].Some? && (x[k].Some? ==> |x[k].value| == |y[k].value|) {
      assert SameMap(a[p + k], b[p + k]);
      if x[k].Some? { assert |multiset(x[k].value)| == |multiset(y[k].value)|; }
    }
    if NoEntries(x) {
      forall k | 0 <= k < |y| && y[k].Some? ensures y[k].value == [] { assert |x[k].value| == 0; }
    }
    if NoEntries(y) {
      forall k | 0 <= k < |x| && x[k].Some? ensures x[k].value == [] { assert |y[k].value| == 0; }
    }
  }

  /**
    What goes wrong otherwise: the map [1] is read, the reader is reset, the map [1] is skipped, and the next one,
    [2], does not come back, because the cursor of the first read already stands where [2] begins.
   */
  method StaleCursor() returns (got: seq<Option<seq<Element>>>, expected: seq<Option<seq<Element>>>)
    ensures expected == [Some([2])] && |got| == 1 && got != expected
  {
    hide CountTrue, Rank, Merge;
    var s := Streams([Some(0), Some(1)], [1, 1], [1, 2]);
    TwoMaps(s);
    SpreadAll(Rows(s)[0..1]);
    SpreadAll(Rows(s)[1..2]);
    var scatter := [true];
    var r := new SlidingWindowMapReader(s);
    assert scatter == Repeat(true, 1);
    ghost var right;
    got, right := ReadRows(r, scatter);
    r.Reset();
    r.Skip(1);
    got, right := ReadRows(r, scatter);
    expected := Rows(s)[1..2];
    assert s.entries[0..1][0] == 1 && s.entries[1..2][0] == 2;
  }

  lemma TwoMaps(s: Streams)
    requires s == Streams([Some(0), Some(1)], [1, 1], [1, 2])
    ensures WellFormed(s) && Rows(s)[1..2] == [Some([2])]
    ensures Span(BatchOf(s, 0, 1)) == (0, 1) && Span(BatchOf(s, 1, 2)) == (1, 2)
  {
    assert NonNulls(s.offsets, 1) == 1 && NonNulls(s.offsets, 2) == 2;
    var w := Windows(s.offsets, s.lengths);
    assert w == [Some(Window(0, 1)), Some(Window(1, 1))];
    assert w[0..1] == [Some(Window(0, 1))] && w[1..2] == [Some(Window(1, 1))];
    assert s.entries[1..2] == [2];
  }

  // ----- written and read back

  /** What a writer is asked to do for one stripe. */
  datatype WriteStep = WriteBatch(batch: Batch) | HandOver(offsets: bool, lengths: bool, entries: bool)

  predicate Writable(steps: seq<WriteStep>)
  {
    forall i :: 0 <= i < |steps| && steps[i].WriteBatch? ==> steps[i].batch.Valid()
  }

  /** The rows of the first `n` steps. */
  function StepRows(steps: seq<WriteStep>, n: nat): seq<Option<seq<Element>>>
    requires Writable(steps) && n <= |steps|
  {
    if n == 0 then []
    else if steps[n - 1].HandOver? then StepRows(steps, n - 1)
    else StepRows(steps, n - 1) + steps[n - 1].batch.Rows()
  }

  /** One stripe: any batches, and any chunks handed over between them. */
  method WriteStripe(writer: SlidingWindowMapWriter, steps: seq<WriteStep>) returns (s: Streams)
    requires writer.Valid() && writer.written == [] && Writable(steps)
    modifies writer
    ensures writer.Valid() && writer.written == []
    ensures WellFormed(s) && SameMaps(Rows(s), StepRows(steps, |steps|))
    ensures Windowed(Windows(s.offsets, s.lengths), StepRows(steps, |steps|))
    ensures |s.entries| == EntryCount(StepRows(steps, |steps|))
  {
    hide SlidingWindowMapWriter.Valid, SameMaps, Rows, Batch.Rows, Batch.Valid, Windowed, EntryCount, Chained, Within;
    for i := 0 to |steps|
      invariant writer.Valid() && writer.written == StepRows(steps, i)
    {
      match steps[i] {
        case WriteBatch(b) => writer.Write(b);
        case HandOver(offsets, lengths, entries) => writer.FlushChunk(offsets, lengths, entries);
      }
    }
    s := writer.Stored();
    writer.Reset();
  }

  /**
    Any stripes, each of any batches and chunks, and any run of reads, skips and resets on any one of them: the maps
    come back exactly under the condition above, and so for careful runs and for any run without a reset.
   */
  method WriteAndRead(stripes: seq<seq<WriteStep>>, stripe: nat, passes: seq<seq<ReadStep>>)
    returns (s: Streams, outputs: seq<seq<seq<Option<seq<Element>>>>>)
    requires stripe < |stripes| && forall i :: 0 <= i < |stripes| ==> Writable(stripes[i])
    requires PassesInBounds(|StepRows(stripes[stripe], |stripes[stripe]|)|, passes)
    ensures WellFormed(s) && SameMaps(Rows(s), StepRows(stripes[stripe], |stripes[stripe]|))
    ensures
      var rows := StepRows(stripes[stripe], |stripes[stripe]|);
      Windowed(Windows(s.offsets, s.lengths), rows) && |s.entries| == EntryCount(rows)
    ensures outputs == ExpectedPasses(Rows(s), passes) <==> ExactPasses(s, 0, 0, passes)
    ensures CarefulPasses(StepRows(stripes[stripe], |stripes[stripe]|), passes) || |passes| <= 1 ==>
      outputs == ExpectedPasses(Rows(s), passes)
  {
    hide SlidingWindowMapWriter.Valid, Rows, Writable, StepRows, InBounds, ExpectedPasses, Exact, Careful;
    hide Windowed, EntryCount, Chained, Within, NonNulls, SameMap;
    var writer := new SlidingWindowMapWriter();
    var stored: seq<Streams> := [];
    for i := 0 to |stripes|
      invariant fresh(writer) && writer.Valid() && writer.written == [] && |stored| == i
      invariant forall k :: 0 <= k < i ==>
        && WellFormed(stored[k]) && SameMaps(Rows(stored[k]), StepRows(stripes[k], |stripes[k]|))
        && Windowed(Windows(stored[k].offsets, stored[k].lengths), StepRows(stripes[k], |stripes[k]|))
        && |stored[k].entries| == EntryCount(StepRows(stripes[k], |stripes[k]|))
    {
      var streams := WriteStripe(writer, stripes[i]);
      stored := stored + [streams];
    }
    s := stored[stripe];
    var reader := new SlidingWindowMapReader(s);
    outputs := ReadPasses(reader, passes);
    ghost var rows := StepRows(stripes[stripe], |stripes[stripe]|);
    if CarefulPasses(rows, passes) {
      forall i | 0 <= i < |passes| ensures Careful(Rows(s), 0, passes[i]) { CarefulSame(Rows(s), rows, 0, passes[i]); }
      CarefulPassesExact(s, 0, 0, passes);
    }
    if |passes| == 1 { NoDriftExact(s, 0, 0, passes[0]); }
  }
}
