/**
  Arrays stored once per run of equal rows.  Every row that is not null carries the number of its
  array; the writer starts a new array only when the row differs from the one before, across batches
  too, and the reader hands out dictionaries whose indices start at zero in every batch.
 */
module DedupArrays {
  import opened Wrappers
  import opened Sequences
  import opened OrderedRange
  import opened Vectors

  // ----- the streams

  /** What a stripe holds: an array number for every row that is not null, the lengths, the elements. */
  datatype Streams = Streams(offsets: seq<Option<nat>>, lengths: seq<nat>, elements: seq<Element>)

  /** How many arrays the first `k` rows have started. */
  function Seen(offsets: seq<Option<nat>>, before: nat, k: nat): nat
    requires k <= |offsets|
  {
    if k == 0 then before
    else match offsets[k - 1]
      case None => Seen(offsets, before, k - 1)
      case Some(offset) => offset + 1
  }

  /** A row repeats the array before it or starts the next one. */
  predicate Ordered(offsets: seq<Option<nat>>, before: nat)
  {
    forall k :: 0 <= k < |offsets| && offsets[k].Some? ==>
      offsets[k].value == Seen(offsets, before, k) || offsets[k].value + 1 == Seen(offsets, before, k)
  }

  predicate WellFormed(s: Streams)
  {
    && Ordered(s.offsets, 0) && |s.lengths| == Seen(s.offsets, 0, |s.offsets|)
    && |s.elements| == Sum(s.lengths)
  }

  function ArrayAt(s: Streams, k: nat): seq<Element>
    requires |s.elements| == Sum(s.lengths) && k < |s.lengths|
  {
    SumNext(s.lengths, k);
    s.elements[Sum(s.lengths[..k])..Sum(s.lengths[..k + 1])]
  }

  /** The rows that the streams stand for. */
  function Rows(s: Streams): (rows: seq<Option<seq<Element>>>)
    requires WellFormed(s)
    ensures |rows| == |s.offsets|
  {
    seq(|s.offsets|, k requires 0 <= k < |s.offsets| => RowAt(s, k))
  }

  function RowAt(s: Streams, k: nat): Option<seq<Element>>
    requires WellFormed(s) && k < |s.offsets|
  {
    match s.offsets[k]
    case None => None
    case Some(offset) => SeenBound(s.offsets, 0, k); Some(ArrayAt(s, offset))
  }

  lemma {:induction false} SeenMono(offsets: seq<Option<nat>>, before: nat, j: nat, k: nat)
    requires Ordered(offsets, before) && j <= k <= |offsets|
    ensures Seen(offsets, before, j) <= Seen(offsets, before, k)
    decreases k - j
  {
    hide Ordered;
    if j < k {
      SeenMono(offsets, before, j, k - 1);
      OrderedAt(offsets, before, k - 1);
    }
  }

  lemma OrderedAt(offsets: seq<Option<nat>>, before: nat, k: nat)
    requires Ordered(offsets, before) && k < |offsets|
    ensures Seen(offsets, before, k) <= Seen(offsets, before, k + 1) <= Seen(offsets, before, k) + 1
  {
  }

  lemma SeenBound(offsets: seq<Option<nat>>, before: nat, k: nat)
    requires Ordered(offsets, before) && k < |offsets| && offsets[k].Some?
    ensures offsets[k].value < Seen(offsets, before, |offsets|)
  {
    SeenMono(offsets, before, k + 1, |offsets|);
  }

  lemma {:induction false} SeenPrefix(xs: seq<Option<nat>>, ys: seq<Option<nat>>, before: nat, k: nat)
    requires k <= |xs|
    ensures Seen(xs + ys, before, k) == Seen(xs, before, k)
  {
    if k > 0 { SeenPrefix(xs, ys, before, k - 1); }
  }

  // ----- the writer

  ghost predicate Encoded(s: Streams, rows: seq<Option<seq<Element>>>)
  {
    WellFormed(s) && Rows(s) == rows
  }

  /** A stream is the chunks handed over and what its buffer holds. */
  predicate Split<T(==)>(flushed: seq<T>, data: seq<T>, all: seq<T>)
  {
    flushed + data == all
  }

  /** The last array of the streams. */
  ghost predicate EndsWith(s: Streams, items: seq<Element>)
  {
    WellFormed(s) && |s.lengths| > 0 && items == ArrayAt(s, |s.lengths| - 1)
  }

  lemma NullAdded(s: Streams, rows: seq<Option<seq<Element>>>)
    requires Encoded(s, rows)
    ensures
      var t := Streams(s.offsets + [None], s.lengths, s.elements);
      Encoded(t, rows + [None]) && forall items :: EndsWith(s, items) ==> EndsWith(t, items)
  {
    hide Seen, Ordered;
    RowAdded(s, rows, s, None);
  }

  lemma RepeatAdded(s: Streams, rows: seq<Option<seq<Element>>>, items: seq<Element>)
    requires Encoded(s, rows) && EndsWith(s, items)
    ensures
      var t := Streams(s.offsets + [Some(|s.lengths| - 1)], s.lengths, s.elements);
      Encoded(t, rows + [Some(items)]) && EndsWith(t, items) &&
        forall other :: EndsWith(s, other) ==> EndsWith(t, other)
  {
    hide Seen, Ordered;
    RowAdded(s, rows, s, Some(|s.lengths| - 1));
  }

  lemma ArrayAdded(s: Streams, rows: seq<Option<seq<Element>>>, items: seq<Element>)
    requires Encoded(s, rows)
    ensures
      var t := Streams(s.offsets + [Some(|s.lengths|)], s.lengths + [|items|], s.elements + items);
      Encoded(t, rows + [Some(items)]) && EndsWith(t, items)
  {
    hide Seen, Ordered, Rows;
    ArraysKept(s, items);
    RowAdded(s, rows, Streams(s.offsets, s.lengths + [|items|], s.elements + items), Some(|s.lengths|));
  }

  lemma SplitGrows<T>(flushed: seq<T>, data: seq<T>, all: seq<T>, more: seq<T>)
    requires Split(flushed, data, all)
    ensures Split(flushed, data + more, all + more)
  {
    assert flushed + (data + more) == flushed + data + more;
  }

  lemma ArraysKept(s: Streams, items: seq<Element>)
    requires |s.elements| == Sum(s.lengths)
    ensures
      var t := Streams(s.offsets, s.lengths + [|items|], s.elements + items);
      && |t.elements| == Sum(t.lengths) && ArrayAt(t, |s.lengths|) == items
      && forall k :: 0 <= k < |s.lengths| ==> ArrayAt(t, k) == ArrayAt(s, k)
  {
    var lengths := s.lengths + [|items|];
    SumConcat(s.lengths, [|items|]);
    assert Sum([|items|][1..]) == 0;
    assert lengths[..|s.lengths|] == s.lengths && lengths[..|lengths|] == lengths;
    forall k | 0 <= k < |s.lengths|
      ensures ArrayAt(Streams(s.offsets, lengths, s.elements + items), k) == ArrayAt(s, k)
    {
      assert lengths[..k] == s.lengths[..k] && lengths[..k + 1] == s.lengths[..k + 1];
      SumNext(s.lengths, k);
    }
  }

  /** One more row over the same arrays or one more. */
  lemma RowAdded(s: Streams, rows: seq<Option<seq<Element>>>, t: Streams, offset: Option<nat>)
    requires Encoded(s, rows) && t.offsets == s.offsets && |t.elements| == Sum(t.lengths)
    requires |s.lengths| <= |t.lengths|
    requires forall k :: 0 <= k < |s.lengths| ==> ArrayAt(t, k) == ArrayAt(s, k)
    requires match offset
             case None => |t.lengths| == |s.lengths|
             case Some(o) => o + 1 == |t.lengths| && (o == |s.lengths| || o + 1 == |s.lengths|)
    ensures
      var u := Streams(s.offsets + [offset], t.lengths, t.elements);
      Encoded(u, rows + [if offset.None? then None else Some(ArrayAt(t, offset.value))])
  {
    hide Seen, Ordered, ArrayAt, Sum;
    var u := Streams(s.offsets + [offset], t.lengths, t.elements);
    OrderedNext(s.offsets, offset);
    var next := rows + [if offset.None? then None else Some(ArrayAt(t, offset.value))];
    forall k | 0 <= k < |u.offsets| ensures RowAt(u, k) == next[k] {
      if k < |s.offsets| {
        assert Rows(s)[k] == rows[k];
        if s.offsets[k].Some? { SeenBound(s.offsets, 0, k); }
      }
      SameArrays(u, t);
    }
  }

  lemma SameArrays(u: Streams, t: Streams)
    requires |t.elements| == Sum(t.lengths) && u.lengths == t.lengths && u.elements == t.elements
    ensures forall k :: 0 <= k < |t.lengths| ==> ArrayAt(u, k) == ArrayAt(t, k)
  {
  }

  lemma OrderedNext(offsets: seq<Option<nat>>, offset: Option<nat>)
    requires Ordered(offsets, 0)
    requires offset.Some? ==>
      offset.value == Seen(offsets, 0, |offsets|) || offset.value + 1 == Seen(offsets, 0, |offsets|)
    ensures Ordered(offsets + [offset], 0)
    ensures Seen(offsets + [offset], 0, |offsets| + 1) ==
      if offset.Some? then offset.value + 1 else Seen(offsets, 0, |offsets|)
  {
    var next := offsets + [offset];
    forall k | 0 <= k <= |offsets| ensures Seen(next, 0, k) == Seen(offsets, 0, k) {
      SeenPrefix(offsets, [offset], 0, k);
    }
  }

  /** One more row; an array that matches the last one repeats its number. */
  function WithRow(s: Streams, row: Option<seq<Element>>, matches: bool): Streams
  {
    match row
    case None => Streams(s.offsets + [None], s.lengths, s.elements)
    case Some(items) =>
      if matches && |s.lengths| > 0 then Streams(s.offsets + [Some(|s.lengths| - 1)], s.lengths, s.elements)
      else Streams(s.offsets + [Some(|s.lengths|)], s.lengths + [|items|], s.elements + items)
  }

  /** The streams, the last array, and the index of the array that this batch brought last. */
  datatype Progress = Progress(streams: Streams, last: Option<seq<Element>>, previous: Option<nat>)

  /** An array of a batch is compared by its elements, or by its index alone if the batch is already encoded. */
  predicate Matches(base: ArrayVector, alreadyEncoded: bool, p: Progress, index: nat)
    requires base.Valid() && index < |base.sizes| && (p.previous.Some? ==> p.previous.value < |base.sizes|)
  {
    if p.previous.Some? then
      index == p.previous.value || (!alreadyEncoded && base.At(index) == base.At(p.previous.value))
    else p.last == Some(base.At(index))
  }

  /** What the first `k` rows of a batch leave. */
  function Ingested(s: Streams, last: Option<seq<Element>>, b: Batch, alreadyEncoded: bool, k: nat): (p: Progress)
    requires b.Valid() && k <= |b.indices|
    ensures p.previous.Some? ==> p.previous.value < |b.base.sizes| && p.last == Some(b.base.At(p.previous.value))
    ensures p.previous.None? ==> p.last == last
  {
    if k == 0 then Progress(s, last, None)
    else
      var p := Ingested(s, last, b, alreadyEncoded, k - 1);
      match b.indices[k - 1]
      case None => p.(streams := WithRow(p.streams, None, false))
      case Some(index) =>
        var items := Some(b.base.At(index));
        Progress(WithRow(p.streams, items, Matches(b.base, alreadyEncoded, p, index)), items, Some(index))
  }

  /** What a writer is asked to do for one stripe. */
  datatype WriteStep =
    | WriteBatch(batch: Batch, alreadyEncoded: bool)
    | HandOver(offsets: bool, lengths: bool, elements: bool)

  predicate Writable(steps: seq<WriteStep>)
  {
    forall i :: 0 <= i < |steps| && steps[i].WriteBatch? ==> steps[i].batch.Valid()
  }

  /** The streams of the first `n` steps: what is handed over in between makes no difference. */
  function Written(steps: seq<WriteStep>, n: nat): Progress
    requires Writable(steps) && n <= |steps|
  {
    if n == 0 then Progress(Streams([], [], []), None, None)
    else
      var before := Written(steps, n - 1);
      match steps[n - 1]
      case WriteBatch(b, alreadyEncoded) => Ingested(before.streams, before.last, b, alreadyEncoded, |b.indices|)
      case HandOver(_, _, _) => before
  }

  /** The rows of the first `n` steps. */
  function StepRows(steps: seq<WriteStep>, n: nat): seq<Option<seq<Element>>>
    requires Writable(steps) && n <= |steps|
  {
    if n == 0 then []
    else if steps[n - 1].HandOver? then StepRows(steps, n - 1)
    else StepRows(steps, n - 1) + steps[n - 1].batch.Rows()
  }

  // ----- which rows share an array

  /** Where a row came from: the step, its index into the arrays of the batch, and how the batch was taken. */
  datatype Source = Source(step: nat, index: nat, alreadyEncoded: bool)

  function BatchSources(b: Batch, step: nat, alreadyEncoded: bool): (r: seq<Option<Source>>)
    ensures |r| == |b.indices|
  {
    seq(|b.indices|, k requires 0 <= k < |b.indices| =>
      if b.indices[k].None? then None else Some(Source(step, b.indices[k].value, alreadyEncoded)))
  }

  function Sources(steps: seq<WriteStep>, n: nat): seq<Option<Source>>
    requires n <= |steps|
  {
    if n == 0 then []
    else if steps[n - 1].HandOver? then Sources(steps, n - 1)
    else Sources(steps, n - 1) + BatchSources(steps[n - 1].batch, n - 1, steps[n - 1].alreadyEncoded)
  }

  /** Arrays are the same by index within a batch taken as already encoded, otherwise by their elements. */
  predicate SameArray(a: Source, b: Source, x: Option<seq<Element>>, y: Option<seq<Element>>)
  {
    if a.step == b.step && b.alreadyEncoded then a.index == b.index else x == y
  }

  /** From row `from` on a row shares the array of the last one before it exactly if their arrays are the same. */
  ghost predicate Shared(
      offsets: seq<Option<nat>>, sources: seq<Option<Source>>, rows: seq<Option<seq<Element>>>, from: nat)
  {
    && |offsets| == |sources| == |rows|
    && (forall k :: 0 <= k < |rows| ==> offsets[k].Some? == sources[k].Some? == rows[k].Some?)
    && forall i: nat, k: nat :: Neighbours(rows, i, k) && from <= k ==>
      (offsets[i] == offsets[k] <==> SameArray(sources[i].value, sources[k].value, rows[i], rows[k]))
  }

  /** What the writer knows of the last row that is not null. */
  ghost predicate Tracked(
      p: Progress, step: nat, alreadyEncoded: bool, sources: seq<Option<Source>>, rows: seq<Option<seq<Element>>>,
      from: nat)
  {
    && Shared(p.streams.offsets, sources, rows, from)
    && match LastSome(rows)
       case None => p.last.None? && p.previous.None? && |p.streams.lengths| == 0
       case Some(i) =>
         && p.last == rows[i] && p.streams.offsets[i] == Some(|p.streams.lengths| - 1)
         && if p.previous.Some? then sources[i] == Some(Source(step, p.previous.value, alreadyEncoded))
            else sources[i].value.step < step
  }

  lemma NullTracked(p: Progress, step: nat, alreadyEncoded: bool, sources: seq<Option<Source>>,
        rows: seq<Option<seq<Element>>>, from: nat)
    requires Tracked(p, step, alreadyEncoded, sources, rows, from)
    ensures Tracked(p.(streams := WithRow(p.streams, None, false)), step, alreadyEncoded, sources + [None],
      rows + [None], from)
  {
    hide SameArray, Neighbours;
    LastOfNext(rows, None);
    forall i: nat, k: nat ensures Neighbours(rows + [None], i, k) <==> Neighbours(rows, i, k) {
      NeighboursNext(rows, None, i, k);
    }
    NeighbourBounds(rows);
  }

  lemma ArrayTracked(b: Batch, p: Progress, step: nat, alreadyEncoded: bool, index: nat,
        sources: seq<Option<Source>>, rows: seq<Option<seq<Element>>>, from: nat)
    requires b.Valid() && index < |b.base.sizes|
    requires p.previous.Some? ==>
      p.previous.value < |b.base.sizes| && p.last == Some(b.base.At(p.previous.value))
    requires Tracked(p, step, alreadyEncoded, sources, rows, from)
    ensures
      var items := Some(b.base.At(index));
      Tracked(Progress(WithRow(p.streams, items, Matches(b.base, alreadyEncoded, p, index)), items, Some(index)),
        step, alreadyEncoded, sources + [Some(Source(step, index, alreadyEncoded))], rows + [items], from)
  {
    hide Neighbours, ArrayVector.At;
    var items, source := Some(b.base.At(index)), Some(Source(step, index, alreadyEncoded));
    var matches := Matches(b.base, alreadyEncoded, p, index);
    var streams := WithRow(p.streams, items, matches);
    LastOfNext(rows, items);
    NeighbourBounds(rows);
    NeighbourBounds(rows + [items]);
    forall i: nat, k: nat | Neighbours(rows + [items], i, k) && from <= k
      ensures streams.offsets[i] == streams.offsets[k] <==>
        SameArray((sources + [source])[i].value, (sources + [source])[k].value, (rows + [items])[i],
          (rows + [items])[k])
    {
      NeighboursNext(rows, items, i, k);
    }
  }

  lemma {:induction false} BatchTracked(s: Streams, last: Option<seq<Element>>, b: Batch, step: nat,
        alreadyEncoded: bool, sources: seq<Option<Source>>, rows: seq<Option<seq<Element>>>, from: nat, k: nat)
    requires b.Valid() && k <= |b.indices|
    requires Tracked(Progress(s, last, None), step, alreadyEncoded, sources, rows, from)
    ensures Tracked(Ingested(s, last, b, alreadyEncoded, k), step, alreadyEncoded,
      sources + BatchSources(b, step, alreadyEncoded)[..k], rows + b.Rows()[..k], from)
  {
    hide Tracked, WithRow, Matches, Batch.Rows;
    var more := BatchSources(b, step, alreadyEncoded);
    if k == 0 {
      assert sources + more[..0] == sources && rows + b.Rows()[..0] == rows;
    } else {
      BatchTracked(s, last, b, step, alreadyEncoded, sources, rows, from, k - 1);
      var p := Ingested(s, last, b, alreadyEncoded, k - 1);
      RowsNext(b, k - 1);
      assert sources + more[..k] == sources + more[..k - 1] + [more[k - 1]];
      match b.indices[k - 1] {
        case None =>
          NullTracked(p, step, alreadyEncoded, sources + more[..k - 1], rows + b.Rows()[..k - 1], from);
          assert rows + b.Rows()[..k] == rows + b.Rows()[..k - 1] + [None];
        case Some(index) =>
          ArrayTracked(b, p, step, alreadyEncoded, index, sources + more[..k - 1], rows + b.Rows()[..k - 1], from);
          assert rows + b.Rows()[..k] == rows + b.Rows()[..k - 1] + [Some(b.base.At(index))];
      }
    }
  }

  /** Between batches only the last row counts, whatever comes next. */
  lemma TrackedLater(p: Progress, step: nat, alreadyEncoded: bool, next: bool, sources: seq<Option<Source>>,
        rows: seq<Option<seq<Element>>>)
    requires Tracked(p, step, alreadyEncoded, sources, rows, 0)
    ensures Tracked(Progress(p.streams, p.last, None), step + 1, next, sources, rows, 0)
  {
    hide Shared;
  }

  lemma {:induction false} StepsTracked(steps: seq<WriteStep>, n: nat, next: bool)
    requires Writable(steps) && n <= |steps|
    ensures Tracked(Progress(Written(steps, n).streams, Written(steps, n).last, None), n, next, Sources(steps, n),
      StepRows(steps, n), 0)
  {
    hide Tracked, Ingested, Batch.Rows, Batch.Valid, BatchSources;
    if n == 0 {
      NothingTracked(next);
    } else {
      var before := Written(steps, n - 1);
      match steps[n - 1] {
        case WriteBatch(b, alreadyEncoded) =>
          StepsTracked(steps, n - 1, alreadyEncoded);
          var sources, rows := Sources(steps, n - 1), StepRows(steps, n - 1);
          BatchTracked(before.streams, before.last, b, n - 1, alreadyEncoded, sources, rows, 0, |b.indices|);
          assert BatchSources(b, n - 1, alreadyEncoded)[..|b.indices|] == BatchSources(b, n - 1, alreadyEncoded);
          assert b.Rows()[..|b.indices|] == b.Rows();
          TrackedLater(Written(steps, n), n - 1, alreadyEncoded, next, Sources(steps, n), StepRows(steps, n));
        case HandOver(_, _, _) =>
          StepsTracked(steps, n - 1, next);
          TrackedLater(Progress(before.streams, before.last, None), n - 1, next, next, Sources(steps, n),
            StepRows(steps, n));
      }
    }
  }

  lemma NothingTracked(next: bool)
    ensures Tracked(Progress(Streams([], [], []), None, None), 0, next, [], [], 0)
  {
  }

  /** Arrays of any run of batches and handovers are shared exactly between rows that have the same array. */
  lemma StepsShared(steps: seq<WriteStep>)
    requires Writable(steps)
    ensures Shared(Written(steps, |steps|).streams.offsets, Sources(steps, |steps|), StepRows(steps, |steps|), 0)
  {
    hide Shared, Written, Sources, StepRows;
    StepsTracked(steps, |steps|, false);
  }

  /**
    What a batch does to the rows from `from` on: within a batch taken as already encoded the indices decide, and
    otherwise the elements, also for the first array of a batch and the last one before it.
   */
  ghost predicate BatchShared(
      offsets: seq<Option<nat>>, rows: seq<Option<seq<Element>>>, from: nat, b: Batch, alreadyEncoded: bool)
  {
    && |offsets| == |rows| == from + |b.indices|
    && forall i: nat, k: nat :: Neighbours(rows, i, k) && from <= k ==>
      (offsets[i] == offsets[k] <==>
        if alreadyEncoded && from <= i then b.indices[i - from] == b.indices[k - from] else rows[i] == rows[k])
  }

  /** Rows of whose sources nothing is known but that they came before. */
  function Earlier(rows: seq<Option<seq<Element>>>): (r: seq<Option<Source>>)
    ensures |r| == |rows|
  {
    seq(|rows|, k requires 0 <= k < |rows| => if rows[k].None? then None else Some(Source(0, 0, false)))
  }

  lemma EarlierTracked(s: Streams, rows: seq<Option<seq<Element>>>, last: Option<seq<Element>>, alreadyEncoded: bool)
    requires Encoded(s, rows)
    requires if last.Some? then EndsWith(s, last.value) else |s.lengths| == 0
    ensures Tracked(Progress(s, last, None), 1, alreadyEncoded, Earlier(rows), rows, |rows|)
  {
    hide Ordered, ArrayAt, Seen, Neighbours, Sum;
    NeighbourBounds(rows);
    LastSeen(s.offsets, |rows|);
    assert s.offsets[..|rows|] == s.offsets;
    forall k | 0 <= k < |rows| ensures s.offsets[k].Some? == rows[k].Some? { assert RowAt(s, k) == rows[k]; }
    SameLastSome(s.offsets, rows);
    if LastSome(rows).Some? { assert RowAt(s, LastSome(rows).value) == rows[LastSome(rows).value]; }
  }

  lemma IngestedShared(
      s: Streams, rows: seq<Option<seq<Element>>>, last: Option<seq<Element>>, b: Batch, alreadyEncoded: bool)
    requires b.Valid() && Encoded(s, rows)
    requires if last.Some? then EndsWith(s, last.value) else |s.lengths| == 0
    ensures
      BatchShared(Ingested(s, last, b, alreadyEncoded, |b.indices|).streams.offsets, rows + b.Rows(), |rows|, b,
        alreadyEncoded)
  {
    hide Encoded, EndsWith, Ingested, Batch.Rows, Neighbours;
    EarlierTracked(s, rows, last, alreadyEncoded);
    BatchTracked(s, last, b, 1, alreadyEncoded, Earlier(rows), rows, |rows|, |b.indices|);
    assert BatchSources(b, 1, alreadyEncoded)[..|b.indices|] == BatchSources(b, 1, alreadyEncoded);
    assert b.Rows()[..|b.indices|] == b.Rows();
    NeighbourBounds(rows + b.Rows());
  }

  /** All batches are compared by their elements. */
  predicate ByElements(steps: seq<WriteStep>)
  {
    forall i :: 0 <= i < |steps| && steps[i].WriteBatch? ==> !steps[i].alreadyEncoded
  }

  lemma {:induction false} NoneEncoded(steps: seq<WriteStep>, n: nat)
    requires ByElements(steps) && n <= |steps|
    ensures forall k :: 0 <= k < |Sources(steps, n)| && Sources(steps, n)[k].Some? ==>
      !Sources(steps, n)[k].value.alreadyEncoded
  {
    if n > 0 { NoneEncoded(steps, n - 1); }
  }

  /** Two rows with only nulls between them share an array exactly if they are equal. */
  ghost predicate Deduplicated(offsets: seq<Option<nat>>, rows: seq<Option<seq<Element>>>)
  {
    && |offsets| == |rows| && (forall k :: 0 <= k < |rows| ==> offsets[k].Some? == rows[k].Some?)
    && forall i: nat, k: nat :: Neighbours(rows, i, k) ==> (offsets[i] == offsets[k] <==> rows[i] == rows[k])
  }

  lemma ElementsDeduplicated(steps: seq<WriteStep>)
    requires Writable(steps) && ByElements(steps)
    ensures Deduplicated(Written(steps, |steps|).streams.offsets, StepRows(steps, |steps|))
  {
    hide Neighbours, Written, Sources, StepRows;
    StepsShared(steps);
    NoneEncoded(steps, |steps|);
    NeighbourBounds(StepRows(steps, |steps|));
  }

  lemma {:induction false} LastSeen(offsets: seq<Option<nat>>, k: nat)
    requires k <= |offsets|
    ensures Seen(offsets, 0, k) ==
      var last := LastSome(offsets[..k]);
      if last.None? then 0 else offsets[last.value].value + 1
  {
    if k > 0 {
      LastSeen(offsets, k - 1);
      assert offsets[..k] == offsets[..k - 1] + [offsets[k - 1]];
      LastOfNext(offsets[..k - 1], offsets[k - 1]);
    }
  }

  lemma SharedAt(offsets: seq<Option<nat>>, rows: seq<Option<seq<Element>>>, i: nat, k: nat)
    requires Deduplicated(offsets, rows) && Neighbours(rows, i, k)
    ensures k < |offsets| && i < k && offsets[i].Some? && offsets[k].Some?
    ensures offsets[i] == offsets[k] <==> rows[i] == rows[k]
  {
  }

  lemma SameNulls(offsets: seq<Option<nat>>, rows: seq<Option<seq<Element>>>, k: nat)
    requires Deduplicated(offsets, rows) && k < |rows|
    ensures |offsets| == |rows| && offsets[k].Some? == rows[k].Some?
    ensures LastSome(offsets[..k]) == LastSome(rows[..k])
  {
    hide Neighbours;
    SameLastSome(offsets[..k], rows[..k]);
  }

  /** A row starts an array exactly if the last one before it is another. */
  lemma ArrayStarted(offsets: seq<Option<nat>>, rows: seq<Option<seq<Element>>>, k: nat)
    requires Ordered(offsets, 0) && Deduplicated(offsets, rows) && k < |rows| == |offsets|
    ensures
      var last := LastSome(rows[..k]);
      Seen(offsets, 0, k + 1) == Seen(offsets, 0, k) +
        if rows[k].None? || (last.Some? && rows[last.value] == rows[k]) then 0 else 1
  {
    hide Ordered, Deduplicated, Neighbours, LastSome;
    SameNulls(offsets, rows, k);
    OrderedAt(offsets, 0, k);
    LastSeen(offsets, k);
    if rows[k].Some? && LastSome(rows[..k]).Some? {
      LastIsNeighbour(rows, k);
      SharedAt(offsets, rows, LastSome(rows[..k]).value, k);
    }
  }

  /** So there are as many arrays as changes of value. */
  lemma {:induction false} ArraysAreChanges(offsets: seq<Option<nat>>, rows: seq<Option<seq<Element>>>, n: nat)
    requires Ordered(offsets, 0) && Deduplicated(offsets, rows) && n <= |rows| == |offsets|
    ensures Seen(offsets, 0, n) == Changes(rows, n)
  {
    hide Ordered, Deduplicated, Seen, LastSome;
    if n == 0 {
      NothingSeen(offsets);
    } else {
      ArraysAreChanges(offsets, rows, n - 1);
      ArrayStarted(offsets, rows, n - 1);
    }
  }

  lemma NothingSeen(offsets: seq<Option<nat>>)
    ensures Seen(offsets, 0, 0) == 0
  {
  }

  lemma NothingIngested(s: Streams, last: Option<seq<Element>>, b: Batch, alreadyEncoded: bool)
    requires b.Valid()
    ensures Ingested(s, last, b, alreadyEncoded, 0) == Progress(s, last, None)
  {
  }

  lemma NullIngested(s: Streams, last: Option<seq<Element>>, b: Batch, alreadyEncoded: bool, k: nat)
    requires b.Valid() && k < |b.indices| && b.indices[k].None?
    ensures
      var p := Ingested(s, last, b, alreadyEncoded, k);
      Ingested(s, last, b, alreadyEncoded, k + 1) == p.(streams := WithRow(p.streams, None, false))
  {
    hide WithRow;
  }

  lemma ArrayIngested(s: Streams, last: Option<seq<Element>>, b: Batch, alreadyEncoded: bool, k: nat)
    requires b.Valid() && k < |b.indices| && b.indices[k].Some?
    ensures
      var p, index := Ingested(s, last, b, alreadyEncoded, k), b.indices[k].value;
      && index < |b.base.sizes| && |b.base.At(index)| == b.base.sizes[index]
      && Ingested(s, last, b, alreadyEncoded, k + 1) == Progress(
        WithRow(p.streams, Some(b.base.At(index)), Matches(b.base, alreadyEncoded, p, index)),
        Some(b.base.At(index)), Some(index))
  {
    hide WithRow, Matches, ArrayVector.At;
    AtLength(b.base, b.indices[k].value);
  }

  lemma SameLast(s: Streams, a: seq<Element>, b: seq<Element>)
    requires EndsWith(s, a) && EndsWith(s, b)
    ensures a == b
  {
  }

  lemma AllFlushed<T>(flushed: seq<T>, data: seq<T>, all: seq<T>)
    requires Split(flushed, data, all)
    ensures Split(flushed + data, [], all)
  {
  }

  class ArrayWithOffsetsWriter {
    ghost var streams: Streams
    /** The last array, if there is one. */
    ghost var last: Option<seq<Element>>
    ghost var written: seq<Option<seq<Element>>>
    var flushed: Streams
    var offsetsData: seq<Option<nat>>
    var lengthsData: seq<nat>
    var elementsData: seq<Element>
    var nextOffset: nat
    var cached: bool
    var cachedValue: seq<Element>

    constructor ()
      ensures Valid() && written == [] && streams == Streams([], [], []) && last == None
    {
      streams, written, flushed, last := Streams([], [], []), [], Streams([], [], []), None;
      offsetsData, lengthsData, elementsData := [], [], [];
      nextOffset := 0;
      cached := false;
      cachedValue := [];
    }

    /** The streams stand for the rows written; `pending` elements are still to be written. */
    ghost predicate Consistent(pending: seq<Element>)
      reads this
    {
      && Encoded(streams, written) && nextOffset == |streams.lengths|
      && Split(flushed.offsets, offsetsData, streams.offsets)
      && Split(flushed.lengths, lengthsData, streams.lengths)
      && Split(flushed.elements, elementsData + pending, streams.elements)
    }

    ghost predicate Valid()
      reads this
    {
      && Consistent([]) && cached == (nextOffset > 0)
      && (cached ==> LastIs(cachedValue)) && last == if cached then Some(cachedValue) else None
    }

    ghost predicate LastIs(items: seq<Element>)
      reads this
    {
      EndsWith(streams, items)
    }

    method AddNull(ghost pending: seq<Element>)
      requires Consistent(pending)
      modifies `streams, `written, `offsetsData
      ensures Consistent(pending) && written == old(written) + [None]
      ensures streams == WithRow(old(streams), None, false)
      ensures forall items :: old(LastIs(items)) ==> LastIs(items)
    {
      hide Encoded, EndsWith, Split;
      NullAdded(streams, written);
      SplitGrows(flushed.offsets, offsetsData, streams.offsets, [None]);
      offsetsData := offsetsData + [None];
      written := written + [None];
      streams := Streams(streams.offsets + [None], streams.lengths, streams.elements);
    }

    /** A row equal to the last array repeats its number; any other adds an array. */
    method AddArray(base: ArrayVector, index: nat, matches: bool, filteredRanges: OrderedRanges)
      requires base.Valid() && index < |base.sizes| && filteredRanges.Valid()
      requires Consistent(Gather(base.elements, filteredRanges.Visited()))
      requires matches ==> LastIs(base.At(index))
      modifies `streams, `written, `offsetsData, `lengthsData, `nextOffset, filteredRanges
      ensures filteredRanges.Valid() && Consistent(Gather(base.elements, filteredRanges.Visited()))
      ensures written == old(written) + [Some(base.At(index))] && LastIs(base.At(index))
      ensures streams == WithRow(old(streams), Some(base.At(index)), matches)
      ensures if matches then lengthsData == old(lengthsData) else lengthsData != []
      ensures nextOffset == old(nextOffset) + (if matches then 0 else 1) && nextOffset > 0
      ensures matches ==> forall other :: old(LastIs(other)) ==> LastIs(other)
    {
      hide Encoded, EndsWith, Split, ArrayVector.At, Gather;
      ghost var items := base.At(index);
      AtLength(base, index);
      if matches { LengthsNotEmpty(streams, items); }
      ghost var number: nat := if matches then |streams.lengths| - 1 else |streams.lengths|;
      ghost var row: seq<Option<nat>> := [Some(number)];
      SplitGrows(flushed.offsets, offsetsData, streams.offsets, row);
      if !matches {
        ArrayAdded(streams, written, items);
        GatherMore(base, filteredRanges.Visited(), index);
        SplitGrows(flushed.elements, elementsData + Gather(base.elements, filteredRanges.Visited()),
          streams.elements, items);
        ghost var length: seq<nat> := [|items|];
        SplitGrows(flushed.lengths, lengthsData, streams.lengths, length);
        assert elementsData + Gather(base.elements, filteredRanges.Visited()) + items ==
          elementsData + (Gather(base.elements, filteredRanges.Visited()) + items);
        if base.sizes[index] > 0 {
          filteredRanges.Add(base.offsets[index], base.sizes[index]);
        }
        lengthsData := lengthsData + [base.sizes[index]];
        nextOffset := nextOffset + 1;
        streams := Streams(streams.offsets + row, streams.lengths + [|items|], streams.elements + items);
      } else {
        RepeatAdded(streams, written, items);
        streams := Streams(streams.offsets + row, streams.lengths, streams.elements);
      }
      written := written + [Some(items)];
      offsetsData := offsetsData + [Some(nextOffset - 1)];
    }

    lemma KnownBefore()
      requires Valid()
      ensures Encoded(streams, written)
      ensures if last.Some? then EndsWith(streams, last.value) else |streams.lengths| == 0
    {
      hide Encoded, EndsWith;
    }

    /** The loop of `ingestLengthsOffsetsByElements`: arrays are compared element by element. */
    method IngestByElements(b: Batch, filteredRanges: OrderedRanges)
      requires Valid() && b.Valid() && filteredRanges.Valid() && filteredRanges.Visited() == []
      modifies this, filteredRanges
      ensures Consistent(Gather(b.base.elements, filteredRanges.Visited())) && filteredRanges.Valid()
      ensures written == old(written) + b.Rows()
      ensures cached == (nextOffset > 0) && (cached ==> LastIs(cachedValue))
      ensures last == if cached then Some(cachedValue) else None
      ensures
        var p := Ingested(old(streams), old(last), b, false, |b.indices|);
        streams == p.streams && last == p.last
    {
      hide Encoded, EndsWith, Split, ArrayVector.At, Gather, SameElements, WithRow, Ingested, Batch.Rows;
      hide OrderedRanges.Valid, OrderedRanges.Visited;
      var base := b.base;
      NothingGathered(elementsData);
      var prevIndex: Option<nat> := None;
      NothingIngested(streams, last, b, false);
      for k := 0 to |b.indices|
        invariant filteredRanges.Valid() && Consistent(Gather(base.elements, filteredRanges.Visited()))
        invariant written == old(written) + b.Rows()[..k]
        invariant streams == Ingested(old(streams), old(last), b, false, k).streams
        invariant prevIndex == Ingested(old(streams), old(last), b, false, k).previous
        invariant cached == old(cached) && cachedValue == old(cachedValue)
        invariant prevIndex.None? ==> cached == (nextOffset > 0) && (cached ==> LastIs(cachedValue))
        invariant prevIndex.Some? ==>
          prevIndex.value < |base.sizes| && LastIs(base.At(prevIndex.value)) && nextOffset > 0
        invariant prevIndex.Some? && lengthsData == [] ==> cached && LastIs(cachedValue)
      {
        RowsNext(b, k);
        match b.indices[k] {
          case None =>
            NullIngested(old(streams), old(last), b, false, k);
            AddNull(Gather(base.elements, filteredRanges.Visited()));
          case Some(index) =>
            ArrayIngested(old(streams), old(last), b, false, k);
            var matches := false;
            if prevIndex.Some? {
              AtLength(base, prevIndex.value);
              matches := index == prevIndex.value
                || (base.sizes[index] == base.sizes[prevIndex.value] &&
                  SameElements(base, index, base.At(prevIndex.value)));
            } else if cached {
              matches := base.sizes[index] == |cachedValue| && SameElements(base, index, cachedValue);
            }
            AddArray(base, index, matches, filteredRanges);
            prevIndex := Some(index);
        }
      }
      assert b.Rows()[..|b.indices|] == b.Rows();
      if prevIndex.Some? && cached && LastIs(cachedValue) { SameLast(streams, cachedValue, base.At(prevIndex.value)); }
      last := Ingested(old(streams), old(last), b, false, |b.indices|).last;
      if prevIndex.Some? && |lengthsData| > 0 {
        cached := true;
        cachedValue := base.At(prevIndex.value);
      }
    }

    /** Arrays are compared element by element, the first with the last one of the batch before. */
    method WriteByElements(b: Batch, filteredRanges: OrderedRanges)
      requires Valid() && b.Valid() && filteredRanges.Valid() && filteredRanges.Visited() == []
      modifies this, filteredRanges
      ensures Consistent(Gather(b.base.elements, filteredRanges.Visited())) && filteredRanges.Valid()
      ensures written == old(written) + b.Rows()
      ensures cached == (nextOffset > 0) && (cached ==> LastIs(cachedValue))
      ensures last == if cached then Some(cachedValue) else None
      ensures
        var p := Ingested(old(streams), old(last), b, false, |b.indices|);
        streams == p.streams && last == p.last
      ensures BatchShared(streams.offsets, written, old(|written|), b, false)
    {
      hide Encoded, EndsWith, Ingested, BatchShared, Consistent, LastIs, Batch.Rows, Gather;
      ghost var streamsBefore, rowsBefore, lastBefore := streams, written, last;
      KnownBefore();
      IngestByElements(b, filteredRanges);
      IngestedShared(streamsBefore, rowsBefore, lastBefore, b, false);
    }

    /** `ingestLengthsOffsetsAlreadyEncoded`: a dictionary whose indices ascend is deduplicated by index. */
    method IngestAlreadyEncoded(b: Batch, filteredRanges: OrderedRanges)
      requires Valid() && b.Valid() && filteredRanges.Valid() && filteredRanges.Visited() == []
      modifies this, filteredRanges
      ensures Consistent(Gather(b.base.elements, filteredRanges.Visited())) && filteredRanges.Valid()
      ensures written == old(written) + b.Rows()
      ensures cached == (nextOffset > 0) && (cached ==> LastIs(cachedValue))
      ensures last == if cached then Some(cachedValue) else None
      ensures
        var p := Ingested(old(streams), old(last), b, true, |b.indices|);
        streams == p.streams && last == p.last
    {
      hide Encoded, EndsWith, Split, ArrayVector.At, Gather, SameElements, WithRow, Ingested, Batch.Rows;
      hide OrderedRanges.Valid, OrderedRanges.Visited;
      var base := b.base;
      NothingGathered(elementsData);
      var previousOffset: Option<nat> := None;
      var newElementIngested := false;
      NothingIngested(streams, last, b, true);
      for k := 0 to |b.indices|
        invariant filteredRanges.Valid() && Consistent(Gather(base.elements, filteredRanges.Visited()))
        invariant written == old(written) + b.Rows()[..k]
        invariant streams == Ingested(old(streams), old(last), b, true, k).streams
        invariant previousOffset == Ingested(old(streams), old(last), b, true, k).previous
        invariant cached == old(cached) && cachedValue == old(cachedValue)
        invariant !newElementIngested ==> cached == (nextOffset > 0) && (cached ==> LastIs(cachedValue))
        invariant previousOffset.Some? ==>
          previousOffset.value < |base.sizes| && LastIs(base.At(previousOffset.value)) && nextOffset > 0
        invariant newElementIngested ==> previousOffset.Some?
      {
        RowsNext(b, k);
        match b.indices[k] {
          case None =>
            NullIngested(old(streams), old(last), b, true, k);
            AddNull(Gather(base.elements, filteredRanges.Visited()));
          case Some(index) =>
            ArrayIngested(old(streams), old(last), b, true, k);
            var matches := false;
            if previousOffset.Some? {
              matches := index == previousOffset.value;
            } else if cached {
              matches := base.sizes[index] == |cachedValue| && SameElements(base, index, cachedValue);
            }
            AddArray(base, index, matches, filteredRanges);
            newElementIngested := newElementIngested || !matches;
            previousOffset := Some(index);
        }
      }
      assert b.Rows()[..|b.indices|] == b.Rows();
      if previousOffset.Some? && cached && LastIs(cachedValue) {
        SameLast(streams, cachedValue, base.At(previousOffset.value));
      }
      last := Ingested(old(streams), old(last), b, true, |b.indices|).last;
      if newElementIngested {
        cached := true;
        cachedValue := base.At(previousOffset.value);
      }
    }

    /** Arrays of the batch are compared by index, the first with the last one of the batch before. */
    method WriteAlreadyEncoded(b: Batch, filteredRanges: OrderedRanges)
      requires Valid() && b.Valid() && filteredRanges.Valid() && filteredRanges.Visited() == []
      modifies this, filteredRanges
      ensures Consistent(Gather(b.base.elements, filteredRanges.Visited())) && filteredRanges.Valid()
      ensures written == old(written) + b.Rows()
      ensures cached == (nextOffset > 0) && (cached ==> LastIs(cachedValue))
      ensures last == if cached then Some(cachedValue) else None
      ensures
        var p := Ingested(old(streams), old(last), b, true, |b.indices|);
        streams == p.streams && last == p.last
      ensures BatchShared(streams.offsets, written, old(|written|), b, true)
    {
      hide Encoded, EndsWith, Ingested, BatchShared, Consistent, LastIs, Batch.Rows, Gather;
      ghost var streamsBefore, rowsBefore, lastBefore := streams, written, last;
      KnownBefore();
      IngestAlreadyEncoded(b, filteredRanges);
      IngestedShared(streamsBefore, rowsBefore, lastBefore, b, true);
    }

    /**
      `write`: a dictionary whose indices ascend is taken as already encoded, anything else is compared;
      then the elements of the new arrays are written.  Either way is right for every batch.
     */
    method Write(b: Batch, alreadyEncoded: bool)
      requires Valid() && b.Valid()
      modifies this
      ensures Valid() && written == old(written) + b.Rows()
      ensures
        var p := Ingested(old(streams), old(last), b, alreadyEncoded, |b.indices|);
        streams == p.streams && last == p.last
      ensures BatchShared(streams.offsets, written, old(|written|), b, alreadyEncoded)
    {
      hide Encoded, EndsWith, Split, Gather, ArrayVector.Valid, Ingested, BatchShared;
      var filteredRanges := new OrderedRanges();
      if alreadyEncoded {
        WriteAlreadyEncoded(b, filteredRanges);
      } else {
        WriteByElements(b, filteredRanges);
      }
      var positions := filteredRanges.ApplyEach();
      elementsData := elementsData + Gather(b.base.elements, positions);
      assert elementsData + [] == elementsData;
    }

    /** All of the stripe: the chunks handed over and what the buffers hold. */
    method Stored() returns (s: Streams)
      requires Valid()
      ensures s == streams && Encoded(s, written)
    {
      s := Streams(flushed.offsets + offsetsData, flushed.lengths + lengthsData, flushed.elements + elementsData);
      assert elementsData + [] == elementsData;
    }

    /** Chunks are handed over between batches, of any of the streams: their buffers start again, all else goes on. */
    method FlushChunk(offsets: bool, lengths: bool, elements: bool)
      requires Valid()
      modifies `flushed, `offsetsData, `lengthsData, `elementsData
      ensures Valid()
      ensures offsetsData == (if offsets then [] else old(offsetsData))
      ensures lengthsData == (if lengths then [] else old(lengthsData))
      ensures elementsData == (if elements then [] else old(elementsData))
    {
      hide Encoded, EndsWith, Split;
      assert elementsData + [] == elementsData;
      if offsets {
        AllFlushed(flushed.offsets, offsetsData, streams.offsets);
        flushed, offsetsData := flushed.(offsets := flushed.offsets + offsetsData), [];
      }
      if lengths {
        AllFlushed(flushed.lengths, lengthsData, streams.lengths);
        flushed, lengthsData := flushed.(lengths := flushed.lengths + lengthsData), [];
      }
      if elements {
        AllFlushed(flushed.elements, elementsData, streams.elements);
        flushed, elementsData := flushed.(elements := flushed.elements + elementsData), [];
        assert elementsData + [] == elementsData;
      }
    }

    /** The end of a stripe. */
    method Reset()
      modifies this
      ensures Valid() && written == [] && streams == Streams([], [], []) && last == None
    {
      streams, written, flushed, last := Streams([], [], []), [], Streams([], [], []), None;
      offsetsData, lengthsData, elementsData := [], [], [];
      cached := false;
      nextOffset := 0;
    }
  }

  lemma LengthsNotEmpty(s: Streams, items: seq<Element>)
    requires EndsWith(s, items)
    ensures |s.lengths| > 0
  {
  }

  // ----- the reader

  /** Spreading the rows does not change which arrays have been started. */
  lemma {:induction false} SpreadSeen(
      offsets: seq<Option<nat>>, p: nat, n: nat, scatter: seq<bool>, k: nat)
    requires p + n <= |offsets| && CountTrue(scatter) == n && k <= |scatter|
    ensures Rank(scatter, k) <= n
    ensures Seen(Spread(offsets[p..p + n], scatter), Seen(offsets, 0, p), k) == Seen(offsets, 0, p + Rank(scatter, k))
  {
    hide CountTrue, Merge;
    RankMono(scatter, k, |scatter|);
    RankAll(scatter);
    if k > 0 {
      SpreadSeen(offsets, p, n, scatter, k - 1);
      RankNext(scatter, k - 1);
      MergeAt(scatter, offsets[p..p + n], Repeat(None, |scatter| - n), k - 1);
    }
  }

  lemma SpreadOrdered(offsets: seq<Option<nat>>, p: nat, n: nat, scatter: seq<bool>)
    requires Ordered(offsets, 0) && p + n <= |offsets| && CountTrue(scatter) == n
    ensures Ordered(Spread(offsets[p..p + n], scatter), Seen(offsets, 0, p))
    ensures Seen(Spread(offsets[p..p + n], scatter), Seen(offsets, 0, p), |scatter|) == Seen(offsets, 0, p + n)
  {
    hide CountTrue, Merge, Rank, Seen;
    var rows, before := Spread(offsets[p..p + n], scatter), Seen(offsets, 0, p);
    RankAll(scatter);
    SpreadSeen(offsets, p, n, scatter, |scatter|);
    forall k | 0 <= k < |rows| && rows[k].Some?
      ensures rows[k].value == Seen(rows, before, k) || rows[k].value + 1 == Seen(rows, before, k)
    {
      SpreadSeen(offsets, p, n, scatter, k);
      MergeAt(scatter, offsets[p..p + n], Repeat(None, |scatter| - n), k);
    }
  }

  /** The first row from `k` on that is not null, or the end. */
  function FirstFrom(rows: seq<Option<nat>>, k: nat): (first: nat)
    requires k <= |rows|
    ensures k <= first <= |rows| && (first < |rows| ==> rows[first].Some?)
    ensures forall i :: k <= i < first ==> rows[i].None?
    decreases |rows| - k
  {
    if k == |rows| || rows[k].Some? then k else FirstFrom(rows, k + 1)
  }

  lemma {:induction false} SeenNothing(rows: seq<Option<nat>>, before: nat, k: nat)
    requires k <= |rows| && forall i :: 0 <= i < k ==> rows[i].None?
    ensures Seen(rows, before, k) == before
  {
    if k > 0 { SeenNothing(rows, before, k - 1); }
  }

  /** The first number repeats the last array of the batch before or is the next one. */
  lemma FirstIsNext(rows: seq<Option<nat>>, before: nat)
    requires Ordered(rows, before)
    ensures
      var first := FirstFrom(rows, 0);
      if first == |rows| then Seen(rows, before, |rows|) == before
      else
        && (rows[first].value == before || rows[first].value + 1 == before)
        && rows[first].value < Seen(rows, before, |rows|) && before <= Seen(rows, before, |rows|)
        && forall k :: 0 <= k < |rows| && rows[k].Some? ==>
          rows[first].value <= rows[k].value < Seen(rows, before, |rows|)
  {
    hide Ordered;
    var first := FirstFrom(rows, 0);
    SeenNothing(rows, before, first);
    if first < |rows| {
      OrderedHere(rows, before, first);
      SeenMono(rows, before, first + 1, |rows|);
      SeenMono(rows, before, 0, |rows|);
      forall k | 0 <= k < |rows| && rows[k].Some?
        ensures rows[first].value <= rows[k].value < Seen(rows, before, |rows|)
      {
        OrderedHere(rows, before, k);
        SeenBound(rows, before, k);
        if first < k { SeenMono(rows, before, first + 1, k); }
      }
    }
  }

  lemma OrderedHere(rows: seq<Option<nat>>, before: nat, k: nat)
    requires Ordered(rows, before) && k < |rows| && rows[k].Some?
    ensures rows[k].value == Seen(rows, before, k) || rows[k].value + 1 == Seen(rows, before, k)
  {
  }

  /** The loop of `getIndicesDeduplicated` that counts the arrays of a batch. */
  method CountDistinct(rows: seq<Option<nat>>, ghost before: nat) returns (uniqueCount: nat)
    requires Ordered(rows, before)
    ensures
      var first := FirstFrom(rows, 0);
      uniqueCount == if first == |rows| then 0 else Seen(rows, before, |rows|) - rows[first].value
  {
    hide Ordered;
    ghost var first := FirstFrom(rows, 0);
    uniqueCount := 0;
    var prevIdx: nat := 0;
    SeenNothing(rows, before, first);
    for idx := 0 to |rows|
      invariant idx <= first ==> uniqueCount == 0
      invariant first < idx ==> first <= prevIdx < idx && rows[prevIdx] == Some(Seen(rows, before, idx) - 1)
      invariant first < idx ==> 0 < uniqueCount == Seen(rows, before, idx) - rows[first].value
    {
      if rows[idx].None? { continue; }
      OrderedHere(rows, before, idx);
      if uniqueCount == 0 || rows[idx] != rows[prevIdx] {
        uniqueCount := uniqueCount + 1;
      }
      prevIdx := idx;
    }
  }

  /** `loadOffsets`: the next `n` lengths and where their arrays start. */
  method LoadOffsets(lengths: seq<nat>, from: nat, n: nat)
    returns (sizes: seq<nat>, offsets: seq<nat>, childrenRows: nat)
    requires from + n <= |lengths|
    ensures sizes == lengths[from..from + n] && childrenRows == Sum(sizes) && |offsets| == n
    ensures forall i :: 0 <= i < n ==> offsets[i] == Sum(sizes[..i])
  {
    sizes := lengths[from..from + n];
    offsets := [];
    childrenRows := 0;
    SumAll(sizes);
    for i := 0 to n
      invariant |offsets| == i && childrenRows == Sum(sizes[..i])
      invariant forall j :: 0 <= j < i ==> offsets[j] == Sum(sizes[..j])
    {
      SumNext(sizes, i);
      offsets := offsets + [childrenRows];
      childrenRows := childrenRows + sizes[i];
    }
  }

  /** The arrays read in one go are the next ones of the stream. */
  lemma LoadedArray(s: Streams, from: nat, n: nat, k: nat)
    requires |s.elements| == Sum(s.lengths) && from + n <= |s.lengths| && k < n
    ensures
      var sizes, start := s.lengths[from..from + n], Sum(s.lengths[..from]);
      && start + Sum(sizes) <= |s.elements| && Sum(sizes[..k]) + sizes[k] <= Sum(sizes)
      && s.elements[start..start + Sum(sizes)][Sum(sizes[..k])..Sum(sizes[..k]) + sizes[k]] == ArrayAt(s, from + k)
  {
    hide Sum;
    var sizes, start := s.lengths[from..from + n], Sum(s.lengths[..from]);
    SumOfSlice(s.lengths, from, from + n);
    SumOfSlice(s.lengths, from, from + k);
    SumNext(s.lengths, from + k);
    SumNext(sizes, k);
    SliceOfSlice(s.lengths, from, from + n, 0, k);
    assert sizes[0..k] == sizes[..k] && sizes[k] == s.lengths[from + k];
    SliceOfSlice(s.elements, start, start + Sum(sizes), Sum(sizes[..k]), Sum(sizes[..k]) + sizes[k]);
  }

  /** What the normalizing loops leave: numbers from zero on, and the cached array moved to the end. */
  function Normalized(row: Option<nat>, baseIndex: nat, cachedLocally: bool, dedupCount: nat): int
  {
    match row
    case None => (dedupCount - 1) % 0x1_0000_0000
    case Some(number) =>
      if number == baseIndex && cachedLocally then dedupCount - 1
      else number - baseIndex - if cachedLocally then 1 else 0
  }

  method Normalize(rows: seq<Option<nat>>, baseIndex: nat, cachedLocally: bool, dedupCount: nat)
    returns (indices: seq<int>)
    ensures |indices| == |rows|
    ensures forall k :: 0 <= k < |rows| ==> indices[k] == Normalized(rows[k], baseIndex, cachedLocally, dedupCount)
  {
    indices := seq(|rows|, i requires 0 <= i < |rows| => if rows[i].Some? then rows[i].value else 0);
    for idx := 0 to |rows|
      invariant |indices| == |rows|
      invariant forall k :: 0 <= k < |rows| && rows[k].Some? ==>
        indices[k] == if k < idx then rows[k].value - baseIndex else rows[k].value
    {
      if rows[idx].None? { continue; }
      indices := indices[idx := indices[idx] - baseIndex];
    }
    for idx := 0 to |rows|
      invariant |indices| == |rows|
      invariant forall k :: 0 <= k < idx ==> indices[k] == Normalized(rows[k], baseIndex, cachedLocally, dedupCount)
      invariant forall k :: idx <= k < |rows| && rows[k].Some? ==> indices[k] == rows[k].value - baseIndex
    {
      if rows[idx].None? {
        indices := indices[idx := (dedupCount - 1) % 0x1_0000_0000];
      } else if indices[idx] == 0 && cachedLocally {
        indices := indices[idx := dedupCount - 1];
      } else {
        indices := indices[idx := indices[idx] - if cachedLocally then 1 else 0];
      }
    }
  }

  lemma LastStarts(s: Streams, m: nat)
    requires |s.elements| == Sum(s.lengths) && 0 < m <= |s.lengths|
    ensures Sum(s.lengths[..m]) == Sum(s.lengths[..m - 1]) + s.lengths[m - 1] <= |s.elements|
    ensures s.elements[Sum(s.lengths[..m - 1])..Sum(s.lengths[..m - 1]) + s.lengths[m - 1]] == ArrayAt(s, m - 1)
    ensures |ArrayAt(s, m - 1)| == s.lengths[m - 1]
  {
    SumNext(s.lengths, m - 1);
  }

  /** `findLastBit`, from the back. */
  method LastNumber(rows: seq<Option<nat>>, ghost before: nat) returns (number: nat)
    requires exists k :: 0 <= k < |rows| && rows[k].Some?
    ensures number + 1 == Seen(rows, before, |rows|)
  {
    var i := |rows|;
    while rows[i - 1].None?
      invariant 0 < i <= |rows| && exists k :: 0 <= k < i && rows[k].Some?
      invariant Seen(rows, before, i) == Seen(rows, before, |rows|)
      decreases i
    {
      i := i - 1;
    }
    number := rows[i - 1].value;
  }

  /** Reads the new arrays of a batch and appends the cached one when the batch begins with it. */
  method ReadValues(
      s: Streams, from: nat, loaded: nat, elementsPosition: nat, cachedLocally: bool,
      cachedElements: seq<Element>, cachedSize: nat)
    returns (values: ArrayVector, childrenRows: nat)
    requires |s.elements| == Sum(s.lengths) && from + loaded <= |s.lengths|
    requires elementsPosition == Sum(s.lengths[..from])
    ensures childrenRows + elementsPosition == Sum(s.lengths[..from + loaded])
    ensures |values.offsets| == |values.sizes| == loaded + if cachedLocally then 1 else 0
    ensures forall k :: 0 <= k < loaded ==>
      values.Item(k) == ArrayAt(s, from + k) && values.sizes[k] == s.lengths[from + k]
    ensures cachedLocally ==>
      values.Item(loaded) == First(cachedElements, cachedSize) && values.sizes[loaded] == cachedSize
    ensures (cachedLocally ==> cachedSize <= |cachedElements|) ==> values.Valid()
  {
    hide Sum, ArrayAt, First, ArrayVector.Item;
    var sizes, offsets;
    sizes, offsets, childrenRows := LoadOffsets(s.lengths, from, loaded);
    SumOfSlice(s.lengths, from, from + loaded);
    SumMono(s.lengths, from + loaded, |s.lengths|);
    SumAll(s.lengths);
    var elements := s.elements[elementsPosition..elementsPosition + childrenRows];
    forall k | 0 <= k < loaded ensures offsets[k] + sizes[k] <= |elements| { LoadedArray(s, from, loaded, k); }
    values := ArrayVector(offsets, sizes, elements);
    if cachedLocally {
      var start: nat := 0;
      if loaded > 0 { start := offsets[loaded - 1] + sizes[loaded - 1]; }
      ArraysFill(sizes, loaded);
      values := CopyCached(values, start, cachedElements, cachedSize);
    }
    ghost var more := if cachedLocally then First(cachedElements, cachedSize) else [];
    assert elements + [] == elements;
    forall k | 0 <= k < loaded ensures values.Item(k) == ArrayAt(s, from + k) {
      LoadedItem(s, from, loaded, k, values, more);
    }
  }

  /** The arrays lie one after the other up to the end of the elements. */
  lemma ArraysFill(sizes: seq<nat>, n: nat)
    requires n == |sizes|
    ensures if n == 0 then Sum(sizes) == 0 else Sum(sizes[..n - 1]) + sizes[n - 1] == Sum(sizes)
  {
    SumAll(sizes);
    if n > 0 { SumNext(sizes, n - 1); }
  }

  /** Appends the cached array behind the last one. */
  method CopyCached(values: ArrayVector, start: nat, cachedElements: seq<Element>, cachedSize: nat)
    returns (r: ArrayVector)
    requires values.Valid() && start == |values.elements|
    ensures r.offsets == values.offsets + [start] && r.sizes == values.sizes + [cachedSize]
    ensures r.elements == values.elements + First(cachedElements, cachedSize)
    ensures r.Item(|values.sizes|) == First(cachedElements, cachedSize)
    ensures cachedSize <= |cachedElements| ==> r.Valid()
  {
    r := ArrayVector(values.offsets + [start], values.sizes + [cachedSize],
      values.elements + First(cachedElements, cachedSize));
    assert r.elements[start..] == First(cachedElements, cachedSize);
  }

  lemma LoadedItem(s: Streams, from: nat, loaded: nat, k: nat, values: ArrayVector, more: seq<Element>)
    requires |s.elements| == Sum(s.lengths) && from + loaded <= |s.lengths| && k < loaded
    requires |values.offsets| == |values.sizes| && loaded <= |values.sizes|
    requires
      var sizes, start := s.lengths[from..from + loaded], Sum(s.lengths[..from]);
      && start + Sum(sizes) <= |s.elements| && values.elements == s.elements[start..start + Sum(sizes)] + more
      && values.offsets[k] == Sum(sizes[..k]) && values.sizes[k] == sizes[k]
    ensures values.Item(k) == ArrayAt(s, from + k)
  {
    hide Sum, ArrayAt, First;
    var sizes, start := s.lengths[from..from + loaded], Sum(s.lengths[..from]);
    LoadedArray(s, from, loaded, k);
    ItemOfPrefix(s.elements[start..start + Sum(sizes)], more, values.offsets[k], values.sizes[k]);
  }

  /** The normalized index of a row leads to its array. */
  lemma IndexLeads(
      rows: seq<Option<nat>>, before: nat, cachedLocally: bool, dedupCount: nat, loaded: nat, k: nat)
    requires Ordered(rows, before) && k < |rows| && rows[k].Some?
    requires
      var first := FirstFrom(rows, 0);
      && first < |rows| && cachedLocally == (before > 0 && rows[first].value + 1 == before)
      && dedupCount == Seen(rows, before, |rows|) - rows[first].value
    requires loaded == dedupCount - (if cachedLocally then 1 else 0) && before + loaded == Seen(rows, before, |rows|)
    ensures
      var index := Normalized(rows[k], rows[FirstFrom(rows, 0)].value, cachedLocally, dedupCount);
      if rows[k].value + 1 == before then cachedLocally && index == loaded
      else 0 <= index < loaded && before + index == rows[k].value
  {
    hide Seen, Ordered;
    FirstIsNext(rows, before);
  }

  const SKIP_BATCH_SIZE := 1024

  class ArrayWithOffsetsReader {
    const streams: Streams
    var offsetsPosition: nat
    var lengthsPosition: nat
    var elementsPosition: nat
    var cached: bool
    var cachedElements: seq<Element>
    var cachedIndex: nat
    var cachedSize: nat
    var cachedLazyLoad: bool
    var cachedLazyChildrenRows: nat

    constructor (streams: Streams)
      requires WellFormed(streams)
      ensures Valid() && offsetsPosition == 0 && this.streams == streams
      ensures cachedElements == [] && !cached && Intact()
    {
      this.streams := streams;
      offsetsPosition, lengthsPosition, elementsPosition := 0, 0, 0;
      cached, cachedElements, cachedIndex, cachedSize := false, [], 0, 0;
      cachedLazyLoad, cachedLazyChildrenRows := false, 0;
    }

    /** After a skip the elements of the last array have not been read yet. */
    ghost predicate Valid()
      reads this
    {
      && WellFormed(streams) && offsetsPosition <= |streams.offsets|
      && lengthsPosition == Seen(streams.offsets, 0, offsetsPosition) && Loadable()
    }

    ghost predicate Loadable()
      reads this
    {
      && |streams.elements| == Sum(streams.lengths) && lengthsPosition <= |streams.lengths|
      && cached == (lengthsPosition > 0)
      && (cached ==> cachedIndex == lengthsPosition - 1 && cachedSize == streams.lengths[cachedIndex])
      && (Lazy() ==> cachedLazyChildrenRows == cachedSize)
      && elementsPosition == Sum(streams.lengths[..if Lazy() then lengthsPosition - 1 else lengthsPosition])
    }

    /** A skip has left the elements of the last array unread. */
    ghost predicate Lazy()
      reads this
    {
      cached && cachedLazyLoad
    }

    /** What a row that repeats the last array will be given. */
    ghost function CachedArray(): seq<Element>
      requires Loadable() && cached
      reads this
    {
      if Lazy() then ArrayAt(streams, cachedIndex) else First(cachedElements, cachedSize)
    }

    ghost predicate Intact()
      requires Loadable()
      reads this
    {
      cached ==> CachedArray() == ArrayAt(streams, cachedIndex)
    }

    /** The rows of the next read. */
    ghost function NextRows(count: nat, scatter: seq<bool>): seq<Option<nat>>
      requires Valid() && offsetsPosition + count <= |streams.offsets| && CountTrue(scatter) == count
      reads this
    {
      Spread(streams.offsets[offsetsPosition..offsetsPosition + count], scatter)
    }

    method Next(count: nat, scatter: seq<bool>)
      returns (indices: seq<int>, values: ArrayVector, nonNulls: seq<bool>, ghost rows: seq<Option<nat>>)
      requires Valid() && offsetsPosition + count <= |streams.offsets| && CountTrue(scatter) == count
      modifies this
      ensures Valid() && offsetsPosition == old(offsetsPosition) + count && rows == old(NextRows(count, scatter))
      ensures |indices| == |nonNulls| == |scatter| && |values.sizes| == |values.offsets|
      ensures forall k :: 0 <= k < |rows| ==> nonNulls[k] == rows[k].Some?
      ensures old(Intact()) ==> values.Valid()
      ensures forall k :: 0 <= k < |rows| && rows[k].Some? ==>
        && 0 <= indices[k] < |values.sizes| && rows[k].value < |streams.lengths|
        && values.Item(indices[k]) ==
           if old(cached) && rows[k].value == old(cachedIndex) then old(CachedArray())
           else ArrayAt(streams, rows[k].value)
      ensures !Lazy()
      ensures cached && (exists k :: 0 <= k < |rows| && rows[k].Some?) ==>
        CachedArray() ==
          if old(cached) && cachedIndex == old(cachedIndex) then old(CachedArray())
          else ArrayAt(streams, cachedIndex)
      ensures cached && (exists k :: 0 <= k < |rows| && rows[k].Some?) ==> cachedElements == CachedArray()
      ensures (forall k :: 0 <= k < |rows| ==> rows[k].None?) ==> cachedElements == old(cachedElements)
    {
      hide Seen, Ordered, ArrayAt, Sum, CountTrue, Merge, ArrayVector.Item, First, Normalized;
      var input := Spread(streams.offsets[offsetsPosition..offsetsPosition + count], scatter);
      rows := input;
      nonNulls := seq(|input|, i requires 0 <= i < |input| => input[i].Some?);
      ghost var before, last := lengthsPosition, Seen(streams.offsets, 0, offsetsPosition + count);
      SpreadOrdered(streams.offsets, offsetsPosition, count, scatter);
      FirstIsNext(input, before);
      SeenMono(streams.offsets, 0, offsetsPosition + count, |streams.offsets|);
      var dedupCount := CountDistinct(input, before);
      offsetsPosition := offsetsPosition + count;
      var first := FirstFrom(input, 0);
      var baseIndex := if first < |input| then input[first].value else 0;
      var cachedLocally := first < |input| && cached && baseIndex == cachedIndex;
      var loaded := dedupCount - if cachedLocally then 1 else 0;
      assert loaded == last - before;
      values := LoadBatch(input, dedupCount, cachedLocally, loaded);
      indices := Normalize(input, baseIndex, cachedLocally, dedupCount);
      forall k | 0 <= k < |rows| && rows[k].Some?
        ensures 0 <= indices[k] < |values.sizes| && rows[k].value < |streams.lengths|
        ensures values.Item(indices[k]) ==
          if old(cached) && rows[k].value == old(cachedIndex) then old(CachedArray())
          else ArrayAt(streams, rows[k].value)
      {
        IndexLeads(input, before, cachedLocally, dedupCount, loaded, k);
      }
    }

    /** Loads the new arrays of a batch and caches the last one. */
    method LoadBatch(input: seq<Option<nat>>, dedupCount: nat, cachedLocally: bool, loaded: nat)
      returns (values: ArrayVector)
      requires Loadable() && lengthsPosition + loaded <= |streams.lengths|
      requires dedupCount == loaded + (if cachedLocally then 1 else 0) && (cachedLocally ==> cached)
      requires Seen(input, lengthsPosition, |input|) == lengthsPosition + loaded
      requires dedupCount > 0 <==> exists k :: 0 <= k < |input| && input[k].Some?
      modifies this
      ensures Loadable() && offsetsPosition == old(offsetsPosition) && lengthsPosition == old(lengthsPosition) + loaded
      ensures |values.offsets| == |values.sizes| == dedupCount && (old(Intact()) ==> values.Valid())
      ensures forall k :: 0 <= k < loaded ==> values.Item(k) == ArrayAt(streams, old(lengthsPosition) + k)
      ensures cachedLocally ==> values.Item(loaded) == old(CachedArray())
      ensures !Lazy()
      ensures dedupCount > 0 && loaded == 0 ==> cached && CachedArray() == old(CachedArray())
      ensures loaded > 0 ==> cached && CachedArray() == ArrayAt(streams, cachedIndex)
      ensures dedupCount > 0 ==> cached && cachedElements == CachedArray()
      ensures dedupCount == 0 ==> cachedElements == old(cachedElements)
    {
      hide Seen, ArrayAt, Sum, ArrayVector.Item, First;
      CacheLength();
      LoadLazily(cachedLocally);
      var childrenRows;
      values, childrenRows := ReadValues(streams, lengthsPosition, loaded, elementsPosition,
        cachedLocally, cachedElements, cachedSize);
      lengthsPosition := lengthsPosition + loaded;
      elementsPosition := elementsPosition + childrenRows;
      if dedupCount > 0 {
        var idxToCache := if loaded > 0 then loaded - 1 else 0;
        FirstOfItem(values, idxToCache);
        cachedElements := values.Item(idxToCache);
        cachedIndex := LastNumber(input, old(lengthsPosition));
        cachedSize := values.sizes[idxToCache];
        cached := true;
        cachedLazyLoad := false;
      }
    }

    /** An intact cache holds as many elements as the array has. */
    lemma CacheLength()
      requires |streams.elements| == Sum(streams.lengths) && (cached ==> cachedIndex < |streams.lengths|)
      requires cached ==> cachedSize == streams.lengths[cachedIndex]
      ensures cached && First(cachedElements, cachedSize) == ArrayAt(streams, cachedIndex) ==>
        cachedSize <= |cachedElements|
    {
      if cached { LastStarts(streams, cachedIndex + 1); }
    }

    /** Elements left unread by a skip are read into the cache, or passed over when the batch does not need them. */
    method LoadLazily(needed: bool)
      requires |streams.elements| == Sum(streams.lengths) && lengthsPosition <= |streams.lengths|
      requires Lazy() ==>
        && 0 < lengthsPosition && cachedIndex == lengthsPosition - 1
        && cachedLazyChildrenRows == cachedSize == streams.lengths[cachedIndex]
      requires elementsPosition == Sum(streams.lengths[..if Lazy() then lengthsPosition - 1 else lengthsPosition])
      modifies `cachedElements, `elementsPosition, `cachedLazyLoad
      ensures !Lazy() && elementsPosition == Sum(streams.lengths[..lengthsPosition])
      ensures old(Lazy()) && needed ==>
        First(cachedElements, cachedSize) == ArrayAt(streams, cachedIndex) && cachedSize <= |cachedElements|
      ensures !(old(Lazy()) && needed) ==> cachedElements == old(cachedElements)
    {
      hide ArrayAt, Sum;
      if cached && cachedLazyLoad {
        LastStarts(streams, lengthsPosition);
        if needed {
          cachedElements := streams.elements[elementsPosition..elementsPosition + cachedLazyChildrenRows];
        }
        elementsPosition := elementsPosition + cachedLazyChildrenRows;
        cachedLazyLoad := false;
      }
    }

    method Skip(count: nat)
      requires Valid() && offsetsPosition + count <= |streams.offsets|
      modifies this
      ensures Valid() && offsetsPosition == old(offsetsPosition) + count && lengthsPosition >= old(lengthsPosition)
      ensures cachedElements == old(cachedElements)
      ensures if lengthsPosition > old(lengthsPosition) then Lazy() && Intact()
              else Lazy() == old(Lazy()) && (cached ==> CachedArray() == old(CachedArray()))
    {
      hide Seen, Ordered, ArrayAt, Sum, First;
      var left := count;
      while left > 0
        invariant Valid() && left >= 0 && offsetsPosition + left == old(offsetsPosition) + count
        invariant lengthsPosition >= old(lengthsPosition) && cachedElements == old(cachedElements)
        invariant if lengthsPosition > old(lengthsPosition) then Lazy() && Intact()
                  else Lazy() == old(Lazy()) && (cached ==> CachedArray() == old(CachedArray()))
      {
        var batchedRowCount := if left < SKIP_BATCH_SIZE then left else SKIP_BATCH_SIZE;
        SkipBatch(batchedRowCount);
        left := left - batchedRowCount;
      }
    }

    method SkipBatch(n: nat)
      requires Valid() && offsetsPosition + n <= |streams.offsets|
      modifies this
      ensures Valid() && offsetsPosition == old(offsetsPosition) + n && lengthsPosition >= old(lengthsPosition)
      ensures cachedElements == old(cachedElements)
      ensures if lengthsPosition > old(lengthsPosition) then Lazy() && Intact()
              else Lazy() == old(Lazy()) && (cached ==> CachedArray() == old(CachedArray()))
    {
      hide Seen, Ordered, ArrayAt, Sum, First;
      var rows := streams.offsets[offsetsPosition..offsetsPosition + n];
      ghost var before := lengthsPosition;
      SliceOrdered(streams.offsets, offsetsPosition, n);
      FirstIsNext(rows, before);
      SeenMono(streams.offsets, 0, offsetsPosition + n, |streams.offsets|);
      var dedupCount := CountDistinct(rows, before);
      offsetsPosition := offsetsPosition + n;
      var first := FirstFrom(rows, 0);
      var cachedLocally := first < |rows| && cached && rows[first].value == cachedIndex;
      if cachedLocally { dedupCount := dedupCount - 1; }
      if dedupCount > 0 {
        cachedIndex := LastNumber(rows, before);
        PassOver(dedupCount);
      }
    }

    /** Skips all new arrays but the last; of that one only the length is read. */
    method PassOver(dedupCount: nat)
      requires |streams.elements| == Sum(streams.lengths) && 0 < dedupCount
      requires lengthsPosition + dedupCount <= |streams.lengths| && cachedIndex + 1 == lengthsPosition + dedupCount
      requires cached == (lengthsPosition > 0)
      requires Lazy() ==> cachedLazyChildrenRows == streams.lengths[lengthsPosition - 1]
      requires elementsPosition == Sum(streams.lengths[..if Lazy() then lengthsPosition - 1 else lengthsPosition])
      modifies `lengthsPosition, `elementsPosition, `cached, `cachedLazyLoad, `cachedLazyChildrenRows, `cachedSize
      ensures Loadable() && Lazy() && lengthsPosition == old(lengthsPosition) + dedupCount
    {
      hide ArrayAt, Sum, First;
      var childrenRows := if cached && cachedLazyLoad then cachedLazyChildrenRows else 0;
      if Lazy() { LastStarts(streams, lengthsPosition); }
      var sizes, offsets, skipped := LoadOffsets(streams.lengths, lengthsPosition, dedupCount - 1);
      SumOfSlice(streams.lengths, lengthsPosition, lengthsPosition + (dedupCount - 1));
      childrenRows := childrenRows + skipped;
      elementsPosition := elementsPosition + childrenRows;
      lengthsPosition := lengthsPosition + (dedupCount - 1);
      cached := true;
      cachedLazyLoad := true;
      cachedLazyChildrenRows := streams.lengths[lengthsPosition];
      cachedSize := streams.lengths[lengthsPosition];
      lengthsPosition := lengthsPosition + 1;
    }

    method Reset()
      requires Valid()
      modifies this
      ensures Valid() && offsetsPosition == 0 && !cached && cachedElements == old(cachedElements)
    {
      offsetsPosition, lengthsPosition, elementsPosition := 0, 0, 0;
      cached := false;
    }
  }

  lemma SliceOrdered(offsets: seq<Option<nat>>, p: nat, n: nat)
    requires Ordered(offsets, 0) && p + n <= |offsets|
    ensures Ordered(offsets[p..p + n], Seen(offsets, 0, p))
    ensures Seen(offsets[p..p + n], Seen(offsets, 0, p), n) == Seen(offsets, 0, p + n)
  {
    hide Seen, Ordered;
    SpreadAll(offsets[p..p + n]);
    SpreadOrdered(offsets, p, n, Repeat(true, n));
  }

  // ----- whole runs

  /**
    When a run is read right.  `lazy`: a skip has left the elements of the last array unread; `lost`: a read of
    nothing but nulls came then and passed over them, so that the cache still holds the elements of an earlier
    array, `stale`.  A read must not begin with a lost array, unless the stale elements happen to be its own.
   */
  predicate Exact(s: Streams, p: nat, lazy: bool, lost: bool, stale: seq<Element>, steps: seq<ReadStep>)
    requires WellFormed(s) && InBounds(|s.offsets|, p, steps)
    decreases |steps|
  {
    steps == [] ||
    (var next := p + steps[0].Count();
     match steps[0]
     case Skipping(_) =>
       if Seen(s.offsets, 0, next) > Seen(s.offsets, 0, p) then Exact(s, next, true, false, stale, steps[1..])
       else Exact(s, next, lazy, lost, stale, steps[1..])
     case Take(_) =>
       if AllNull(s.offsets[p..next]) then Exact(s, next, false, lost || lazy, stale, steps[1..])
       else
         && (lost && Repeats(s.offsets, p, next) ==> Survives(s, p, stale))
         && Exact(s, next, false, false, LastArray(s, next), steps[1..]))
  }

  /** The elements that the cache holds after a run that is read right. */
  function Leftover(s: Streams, p: nat, stale: seq<Element>, steps: seq<ReadStep>): seq<Element>
    requires WellFormed(s) && InBounds(|s.offsets|, p, steps)
    decreases |steps|
  {
    if steps == [] then stale
    else
      hide Seen, WellFormed, AllNull;
      var next := p + steps[0].Count();
      var same := steps[0].Skipping? || AllNull(s.offsets[p..next]);
      Leftover(s, next, if same then stale else LastArray(s, next), steps[1..])
  }

  /** A run with resets is a sequence of passes from row 0 on; the cache keeps its elements from pass to pass. */
  predicate ExactPasses(s: Streams, stale: seq<Element>, passes: seq<seq<ReadStep>>)
    requires WellFormed(s) && PassesInBounds(|s.offsets|, passes)
    decreases |passes|
  {
    passes == [] ||
    (Exact(s, 0, false, false, stale, passes[0]) && ExactPasses(s, Leftover(s, 0, stale, passes[0]), passes[1..]))
  }

  /** The last array before row `p`. */
  function LastArray(s: Streams, p: nat): seq<Element>
    requires WellFormed(s) && p <= |s.offsets|
  {
    SeenMono(s.offsets, 0, p, |s.offsets|);
    if Seen(s.offsets, 0, p) == 0 then [] else ArrayAt(s, Seen(s.offsets, 0, p) - 1)
  }

  /** The stale elements are those of the last array. */
  predicate Survives(s: Streams, p: nat, stale: seq<Element>)
    requires WellFormed(s) && p <= |s.offsets|
  {
    First(stale, |LastArray(s, p)|) == LastArray(s, p)
  }

  /** A condition on the offsets alone: no read begins with a lost array. */
  predicate Safe(offsets: seq<Option<nat>>, p: nat, lazy: bool, lost: bool, steps: seq<ReadStep>)
    requires InBounds(|offsets|, p, steps)
    decreases |steps|
  {
    steps == [] ||
    (var next := p + steps[0].Count();
     match steps[0]
     case Skipping(_) =>
       if Seen(offsets, 0, next) > Seen(offsets, 0, p) then Safe(offsets, next, true, false, steps[1..])
       else Safe(offsets, next, lazy, lost, steps[1..])
     case Take(_) =>
       var part := offsets[p..next];
       if AllNull(part) then Safe(offsets, next, false, lost || lazy, steps[1..])
       else !(lost && Repeats(offsets, p, next)) && Safe(offsets, next, false, false, steps[1..]))
  }

  lemma {:induction false} SafeIsExact(s: Streams, p: nat, lazy: bool, lost: bool, stale: seq<Element>,
        steps: seq<ReadStep>)
    requires WellFormed(s) && InBounds(|s.offsets|, p, steps) && Safe(s.offsets, p, lazy, lost, steps)
    ensures Exact(s, p, lazy, lost, stale, steps)
    decreases |steps|
  {
    hide Seen, WellFormed, LastArray, Survives, Repeats, AllNull;
    if steps != [] {
      var next := p + steps[0].Count();
      match steps[0] {
        case Skipping(_) =>
          if Seen(s.offsets, 0, next) > Seen(s.offsets, 0, p) { SafeIsExact(s, next, true, false, stale, steps[1..]); }
          else { SafeIsExact(s, next, lazy, lost, stale, steps[1..]); }
        case Take(_) =>
          if AllNull(s.offsets[p..next]) { SafeIsExact(s, next, false, lost || lazy, stale, steps[1..]); }
          else { SafeIsExact(s, next, false, false, LastArray(s, next), steps[1..]); }
      }
    }
  }

  /** The first array of the rows is the last one before them. */
  predicate Repeats(offsets: seq<Option<nat>>, p: nat, next: nat)
    requires p <= next <= |offsets|
  {
    var part := offsets[p..next];
    var first := FirstFrom(part, 0);
    first < |part| && part[first].value + 1 == Seen(offsets, 0, p)
  }

  /** Whether the read of rows [p, next) is right, whether the last array is lost after it, and the cache then. */
  predicate ReadOutcome(
      s: Streams, p: nat, next: nat, lazy: bool, lost: bool, stale: seq<Element>, right: bool, nowLost: bool,
      cache: seq<Element>)
    requires WellFormed(s) && p <= next <= |s.offsets|
  {
    var nulls := AllNull(s.offsets[p..next]);
    && right == (nulls || !(lost && Repeats(s.offsets, p, next)) || Survives(s, p, stale))
    && nowLost == (if nulls then lost || lazy else !right)
    && (nulls ==> cache == stale) && (right && !nulls ==> cache == LastArray(s, next))
  }

  /** One read of a run: right, unless it begins with a lost array. */
  method ReadRows(r: ArrayWithOffsetsReader, scatter: seq<bool>, ghost lost: bool)
    returns (rows: seq<Option<seq<Element>>>, ghost nowLost: bool, ghost right: bool)
    requires r.Valid() && r.offsetsPosition + CountTrue(scatter) <= |r.streams.offsets|
    requires if lost then r.cached && !r.Lazy() else r.Intact()
    modifies r
    ensures r.Valid() && !r.Lazy() && r.offsetsPosition == old(r.offsetsPosition) + CountTrue(scatter)
    ensures if nowLost then r.cached else r.Intact()
    ensures ReadOutcome(r.streams, old(r.offsetsPosition), r.offsetsPosition, old(r.Lazy()), lost,
      old(r.cachedElements), right, nowLost, r.cachedElements)
    ensures
      var part := Rows(r.streams)[old(r.offsetsPosition)..r.offsetsPosition];
      right <==> rows == Merge(scatter, part, Repeat(None, |scatter| - |part|))
  {
    hide Seen, Ordered, ArrayAt, Sum, CountTrue, Merge, Rank, First, LastArray, Spread, Rows, RowsFrom, AllNull;
    hide Repeats, Survives;
    ghost var p, count, s := r.offsetsPosition, CountTrue(scatter), r.streams;
    ghost var part := s.offsets[p..p + count];
    ghost var wasLazy, stale := r.Lazy(), r.cachedElements;
    ghost var last := if r.cached then Some(r.CachedArray()) else None;
    if r.cached { LastGiven(r, lost); }
    rows := ReadOnce(r, scatter);
    right := AllNull(part) || !(lost && Repeats(s.offsets, p, p + count)) || Survives(s, p, stale);
    nowLost := if AllNull(part) then lost || wasLazy else !right;
    RowsRead(s, p, scatter, rows, last);
    RightRows(s, p, p + count, last, lost, stale);
    if AllNull(part) {
      NoneSeen(s, p, p + count);
    } else {
      CachedAfter(s, p, p + count, last, lost, stale, r.CachedArray());
      LastOne(r);
    }
  }

  /** The read itself: every row is its own array, or what the cache gives for the last one before. */
  method ReadOnce(r: ArrayWithOffsetsReader, scatter: seq<bool>) returns (rows: seq<Option<seq<Element>>>)
    requires r.Valid() && r.offsetsPosition + CountTrue(scatter) <= |r.streams.offsets|
    modifies r
    ensures r.Valid() && !r.Lazy() && r.offsetsPosition == old(r.offsetsPosition) + CountTrue(scatter)
    ensures
      var s, p, next := r.streams, old(r.offsetsPosition), r.offsetsPosition;
      var last := old(if r.cached then Some(r.CachedArray()) else None);
      && RowsFrom(s, Spread(s.offsets[p..next], scatter), rows, last, Seen(s.offsets, 0, p))
      && (AllNull(s.offsets[p..next]) ==> r.cachedElements == old(r.cachedElements))
      && (!AllNull(s.offsets[p..next]) ==>
        && r.cached && r.cachedElements == r.CachedArray()
        && r.CachedArray() ==
          if last.Some? && Seen(s.offsets, 0, next) == Seen(s.offsets, 0, p) then last.value else LastArray(s, next))
  {
    hide Seen, Ordered, ArrayAt, Sum, CountTrue, Merge, Rank, ArrayVector.Item, First, LastArray, Spread;
    ghost var p, count, s := r.offsetsPosition, CountTrue(scatter), r.streams;
    ghost var part, seen := s.offsets[p..p + count], Seen(s.offsets, 0, p);
    ghost var last := if r.cached then Some(r.CachedArray()) else None;
    if r.cached { LastOne(r); }
    var indices, values, nonNulls;
    ghost var spread;
    indices, values, nonNulls, spread := r.Next(CountTrue(scatter), scatter);
    rows := Unwrap(indices, values, nonNulls);
    RowsGiven(s, spread, indices, values, nonNulls, rows, last, seen);
    SpreadNulls(part, scatter);
    if !AllNull(part) {
      SomeSeen(s, p, p + count);
      LastOne(r);
    }
  }

  lemma RowsGiven(
      s: Streams, numbers: seq<Option<nat>>, indices: seq<int>, values: ArrayVector, nonNulls: seq<bool>,
      rows: seq<Option<seq<Element>>>, last: Option<seq<Element>>, seen: nat)
    requires |s.elements| == Sum(s.lengths) && |values.offsets| == |values.sizes|
    requires |numbers| == |indices| == |nonNulls| == |rows|
    requires forall k :: 0 <= k < |rows| ==> nonNulls[k] == numbers[k].Some?
    requires forall k :: 0 <= k < |rows| && numbers[k].Some? ==>
      && 0 <= indices[k] < |values.sizes| && numbers[k].value < |s.lengths|
      && values.Item(indices[k]) ==
        if last.Some? && numbers[k].value + 1 == seen then last.value else ArrayAt(s, numbers[k].value)
    requires forall k :: 0 <= k < |rows| ==> rows[k] == if nonNulls[k] then Some(values.Item(indices[k])) else None
    ensures RowsFrom(s, numbers, rows, last, seen)
  {
    hide ArrayAt, Sum, ArrayVector.Item;
  }

  /** What the cache gives for the last array: its own elements, or stale ones if it is lost. */
  lemma LastGiven(r: ArrayWithOffsetsReader, lost: bool)
    requires r.Valid() && r.cached && if lost then !r.Lazy() else r.Intact()
    ensures Seen(r.streams.offsets, 0, r.offsetsPosition) > 0
    ensures r.CachedArray() ==
      var items := LastArray(r.streams, r.offsetsPosition);
      if lost then First(r.cachedElements, |items|) else items
  {
    hide Seen, ArrayAt, First, LastArray;
    LastOne(r);
  }

  /** Rows and verdict agree. */
  lemma RightRows(
      s: Streams, p: nat, next: nat, last: Option<seq<Element>>, lost: bool, stale: seq<Element>)
    requires WellFormed(s) && p <= next <= |s.offsets| && (lost ==> last.Some?)
    requires last.Some? ==> last.value == if lost then First(stale, |LastArray(s, p)|) else LastArray(s, p)
    ensures (last.None? || !Repeats(s.offsets, p, next) || last.value == LastArray(s, p)) ==
      (AllNull(s.offsets[p..next]) || !(lost && Repeats(s.offsets, p, next)) || Survives(s, p, stale))
  {
    hide Seen, First, LastArray, WellFormed;
    NoFirst(s.offsets[p..next]);
  }

  lemma NoFirst(rows: seq<Option<nat>>)
    ensures AllNull(rows) <==> FirstFrom(rows, 0) == |rows|
  {
  }

  lemma NoneSeen(s: Streams, p: nat, next: nat)
    requires WellFormed(s) && p <= next <= |s.offsets| && AllNull(s.offsets[p..next])
    ensures Seen(s.offsets, 0, next) == Seen(s.offsets, 0, p)
  {
    hide Seen, Ordered;
    SliceOrdered(s.offsets, p, next - p);
    FirstIsNext(s.offsets[p..next], Seen(s.offsets, 0, p));
    NoFirst(s.offsets[p..next]);
  }

  lemma SomeSeen(s: Streams, p: nat, next: nat)
    requires WellFormed(s) && p <= next <= |s.offsets| && !AllNull(s.offsets[p..next])
    ensures Seen(s.offsets, 0, next) > 0
    ensures Seen(s.offsets, 0, next) == Seen(s.offsets, 0, p) ==> Repeats(s.offsets, p, next)
  {
    hide Seen, Ordered;
    SliceOrdered(s.offsets, p, next - p);
    FirstIsNext(s.offsets[p..next], Seen(s.offsets, 0, p));
    NoFirst(s.offsets[p..next]);
  }

  /** A read that is right leaves the last array in the cache. */
  lemma CachedAfter(
      s: Streams, p: nat, next: nat, last: Option<seq<Element>>, lost: bool, stale: seq<Element>,
      cached: seq<Element>)
    requires WellFormed(s) && p <= next <= |s.offsets| && !AllNull(s.offsets[p..next])
    requires last.Some? ==> last.value == if lost then First(stale, |LastArray(s, p)|) else LastArray(s, p)
    requires cached ==
      if last.Some? && Seen(s.offsets, 0, next) == Seen(s.offsets, 0, p) then last.value else LastArray(s, next)
    ensures !(lost && Repeats(s.offsets, p, next)) || Survives(s, p, stale) ==> cached == LastArray(s, next)
  {
    hide Seen, First, WellFormed, Repeats;
    SomeSeen(s, p, next);
  }

  /** The last array before the next row, and its length. */
  lemma LastOne(r: ArrayWithOffsetsReader)
    requires r.Valid() && r.cached
    ensures LastArray(r.streams, r.offsetsPosition) == ArrayAt(r.streams, r.cachedIndex)
    ensures r.cachedSize == |LastArray(r.streams, r.offsetsPosition)| &&
      r.cachedIndex + 1 == Seen(r.streams.offsets, 0, r.offsetsPosition)
  {
    SeenMono(r.streams.offsets, 0, r.offsetsPosition, |r.streams.offsets|);
    SumNext(r.streams.lengths, r.cachedIndex);
  }

  /** The row with number `v`; the last array before the batch, number `seen - 1`, is given as `last`. */
  function RowFrom(s: Streams, v: Option<nat>, last: Option<seq<Element>>, seen: nat): Option<seq<Element>>
    requires |s.elements| == Sum(s.lengths) && (v.Some? ==> v.value < |s.lengths|)
  {
    match v
    case None => None
    case Some(n) => if last.Some? && n + 1 == seen then last else Some(ArrayAt(s, n))
  }

  ghost predicate RowsFrom(s: Streams, numbers: seq<Option<nat>>, rows: seq<Option<seq<Element>>>,
      last: Option<seq<Element>>, seen: nat)
    requires |s.elements| == Sum(s.lengths)
  {
    && |rows| == |numbers|
    && forall k :: 0 <= k < |rows| ==>
      (numbers[k].Some? ==> numbers[k].value < |s.lengths|) && rows[k] == RowFrom(s, numbers[k], last, seen)
  }

  /** A row of the batch, as it should be. */
  lemma MergedRow(s: Streams, p: nat, part: seq<Option<nat>>, all: seq<Option<seq<Element>>>, scatter: seq<bool>,
        k: nat,
      number: Option<nat>)
    requires WellFormed(s) && p + |part| <= |s.offsets| && |part| == CountTrue(scatter) && k < |scatter|
    requires part == s.offsets[p..p + |part|] && all == Rows(s)[p..p + |part|] && number == Spread(part, scatter)[k]
    ensures |s.elements| == Sum(s.lengths)
    ensures number.Some? ==>
      number.value < |s.lengths| && Rank(scatter, k) < |part| && part[Rank(scatter, k)] == number
    ensures Merge(scatter, all, Repeat(None, |scatter| - |all|))[k] == RowFrom(s, number, None, 0)
  {
    hide Seen, Ordered, ArrayAt, Sum, CountTrue, Merge, Rank;
    MergeAt(scatter, all, Repeat(None, |scatter| - |all|), k);
    MergeAt(scatter, part, Repeat(None, |scatter| - |part|), k);
    if scatter[k] {
      var row := p + Rank(scatter, k);
      assert part[Rank(scatter, k)] == s.offsets[row] && all[Rank(scatter, k)] == RowAt(s, row);
      if s.offsets[row].Some? { SeenBound(s.offsets, 0, row); }
    }
  }

  /** The rows of a read are right, unless its first array is the last one before and that is given wrong. */
  lemma RowsRead(s: Streams, p: nat, scatter: seq<bool>, rows: seq<Option<seq<Element>>>, last: Option<seq<Element>>)
    requires WellFormed(s) && p + CountTrue(scatter) <= |s.offsets|
    requires RowsFrom(s, Spread(s.offsets[p..p + CountTrue(scatter)], scatter), rows, last, Seen(s.offsets, 0, p))
    requires last.Some? ==> Seen(s.offsets, 0, p) > 0
    ensures
      var part := Rows(s)[p..p + CountTrue(scatter)];
      (rows == Merge(scatter, part, Repeat(None, |scatter| - |part|))) == (
        last.None? || !Repeats(s.offsets, p, p + CountTrue(scatter)) || last.value == LastArray(s, p))
  {
    hide Seen, Ordered, ArrayAt, Sum, CountTrue, Merge, Rank, WellFormed, Rows;
    var count, seen := CountTrue(scatter), Seen(s.offsets, 0, p);
    var part, all := s.offsets[p..p + count], Rows(s)[p..p + count];
    var spread, merged := Spread(part, scatter), Merge(scatter, all, Repeat(None, |scatter| - count));
    FirstNumber(s, p, count);
    var good := last.None? || !Repeats(s.offsets, p, p + count) || last.value == LastArray(s, p);
    forall k | 0 <= k < |rows| && good ensures rows[k] == merged[k] {
      MergedRow(s, p, part, all, scatter, k, spread[k]);
    }
    if !good {
      var k := PositionOf(scatter, FirstFrom(part, 0));
      MergeAt(scatter, part, Repeat(None, |scatter| - count), k);
      MergedRow(s, p, part, all, scatter, k, spread[k]);
      assert spread[k] == part[FirstFrom(part, 0)];
      assert rows[k] != merged[k];
    }
  }

  /**
    The first number of the rows from `p` on repeats the last one before or is the next one, and no other is
    smaller.
   */
  lemma FirstNumber(s: Streams, p: nat, count: nat)
    requires WellFormed(s) && p + count <= |s.offsets|
    ensures |s.elements| == Sum(s.lengths) && Seen(s.offsets, 0, p) <= |s.lengths|
    ensures Seen(s.offsets, 0, p) > 0 ==> LastArray(s, p) == ArrayAt(s, Seen(s.offsets, 0, p) - 1)
    ensures
      var part, seen := s.offsets[p..p + count], Seen(s.offsets, 0, p);
      var first := FirstFrom(part, 0);
      first < |part| ==>
        && (part[first].value == seen || part[first].value + 1 == seen)
        && forall k :: 0 <= k < |part| && part[k].Some? ==> part[first].value <= part[k].value
  {
    hide Seen, Ordered, ArrayAt, Sum;
    SliceOrdered(s.offsets, p, count);
    FirstIsNext(s.offsets[p..p + count], Seen(s.offsets, 0, p));
    SeenMono(s.offsets, 0, p, |s.offsets|);
  }

  /** One skip of a run. */
  method SkipRows(r: ArrayWithOffsetsReader, n: nat, ghost lost: bool) returns (ghost nowLost: bool)
    requires r.Valid() && r.offsetsPosition + n <= |r.streams.offsets|
    requires if lost then r.cached && !r.Lazy() else r.Intact()
    modifies r
    ensures r.Valid() && r.offsetsPosition == old(r.offsetsPosition) + n && r.cachedElements == old(r.cachedElements)
    ensures if nowLost then r.cached && !r.Lazy() else r.Intact()
    ensures if Seen(r.streams.offsets, 0, r.offsetsPosition) > Seen(r.streams.offsets, 0, old(r.offsetsPosition))
            then !nowLost && r.Lazy() else nowLost == lost && r.Lazy() == old(r.Lazy())
  {
    hide Seen, Ordered, ArrayAt, Sum, First;
    ghost var m := r.lengthsPosition;
    r.Skip(n);
    nowLost := r.lengthsPosition <= m && lost;
  }

  lemma StreamsWellFormed(r: ArrayWithOffsetsReader)
    requires r.Valid()
    ensures WellFormed(r.streams)
  {
  }

  lemma TakeStep(
      s: Streams, p: nat, next: nat, lazy: bool, lost: bool, stale: seq<Element>, rest: seq<ReadStep>, right: bool,
      nowLost: bool, cache: seq<Element>)
    requires WellFormed(s) && rest != [] && rest[0].Take? && next == p + rest[0].Count() <= |s.offsets|
    requires InBounds(|s.offsets|, p, rest) && InBounds(|s.offsets|, next, rest[1..])
    requires ReadOutcome(s, p, next, lazy, lost, stale, right, nowLost, cache)
    ensures !right ==> !Exact(s, p, lazy, lost, stale, rest)
    ensures right ==> Exact(s, p, lazy, lost, stale, rest) == Exact(s, next, false, nowLost, cache, rest[1..])
    ensures right ==> Leftover(s, p, stale, rest) == Leftover(s, next, cache, rest[1..])
  {
    hide Seen, WellFormed, Repeats, Survives, LastArray, AllNull, CountTrue;
  }

  lemma SkipStep(
      s: Streams, p: nat, next: nat, lazy: bool, lost: bool, stale: seq<Element>, rest: seq<ReadStep>, nowLost: bool,
      nowLazy: bool)
    requires WellFormed(s) && rest != [] && rest[0].Skipping? && next == p + rest[0].Count() <= |s.offsets|
    requires InBounds(|s.offsets|, p, rest) && InBounds(|s.offsets|, next, rest[1..])
    requires
      if Seen(s.offsets, 0, next) > Seen(s.offsets, 0, p) then !nowLost && nowLazy
      else nowLost == lost && nowLazy == lazy
    ensures Exact(s, p, lazy, lost, stale, rest) == Exact(s, next, nowLazy, nowLost, stale, rest[1..])
    ensures Leftover(s, p, stale, rest) == Leftover(s, next, stale, rest[1..])
  {
    hide Seen, WellFormed, Repeats, Survives, LastArray, AllNull;
  }

  lemma EndOfSteps(
      rows: seq<Option<seq<Element>>>, s: Streams, p: nat, lazy: bool, lost: bool, cache: seq<Element>)
    requires WellFormed(s) && InBounds(|s.offsets|, p, []) && InBounds(|rows|, p, [])
    ensures Exact(s, p, lazy, lost, cache, []) && Leftover(s, p, cache, []) == cache && Expected(rows, p, []) == []
  {
  }

  /** A run of reads and skips returns the rows exactly under the condition above. */
  method ReadRun(r: ArrayWithOffsetsReader, steps: seq<ReadStep>) returns (outputs: seq<seq<Option<seq<Element>>>>)
    requires r.Valid() && r.Intact() && InBounds(|r.streams.offsets|, r.offsetsPosition, steps)
    modifies r
    ensures r.Valid() && WellFormed(r.streams)
    ensures outputs == Expected(Rows(r.streams), old(r.offsetsPosition), steps) <==>
      Exact(r.streams, old(r.offsetsPosition), old(r.Lazy()), false, old(r.cachedElements), steps)
    ensures Exact(r.streams, old(r.offsetsPosition), old(r.Lazy()), false, old(r.cachedElements), steps) ==>
      r.cachedElements == Leftover(r.streams, old(r.offsetsPosition), old(r.cachedElements), steps)
  {
    hide Seen, CountTrue, Rows, WellFormed, Merge, Exact, Leftover, Expected, InBounds, ReadOutcome, AllNull;
    hide ArrayWithOffsetsReader.Loadable, ArrayWithOffsetsReader.Intact, ArrayWithOffsetsReader.Lazy;
    outputs := [];
    StreamsWellFormed(r);
    ghost var s := r.streams;
    ghost var whole := Expected(Rows(s), r.offsetsPosition, steps);
    ghost var exact := Exact(s, r.offsetsPosition, r.Lazy(), false, r.cachedElements, steps);
    ghost var leftover := Leftover(s, r.offsetsPosition, r.cachedElements, steps);
    ghost var lost, right := false, true;
    assert steps[0..] == steps && [] + whole == whole;
    for i := 0 to |steps|
      invariant r.Valid() && if lost then r.cached && !r.Lazy() else r.Intact()
      invariant InBounds(|s.offsets|, r.offsetsPosition, steps[i..])
      invariant right ==> exact == Exact(s, r.offsetsPosition, r.Lazy(), lost, r.cachedElements, steps[i..])
      invariant right ==> leftover == Leftover(s, r.offsetsPosition, r.cachedElements, steps[i..])
      invariant right ==> whole == outputs + Expected(Rows(s), r.offsetsPosition, steps[i..])
      invariant !right ==> !exact && Differ(outputs, whole)
    {
      ghost var rest, before, p := steps[i..], outputs, r.offsetsPosition;
      ghost var lazy, stale, wasLost := r.Lazy(), r.cachedElements, lost;
      assert rest[0] == steps[i] && rest[1..] == steps[i + 1..];
      NextStep(Rows(s), p, rest);
      match steps[i] {
        case Take(scatter) =>
          var rows;
          ghost var good;
          rows, lost, good := ReadRows(r, scatter, lost);
          TakeStep(s, p, r.offsetsPosition, lazy, wasLost, stale, rest, good, lost, r.cachedElements);
          outputs := outputs + [rows];
          if right { RowsAgree(before, whole, rows, Expected(Rows(s), p, rest)); }
          else { DifferMore(before, whole, rows); }
          right := right && good;
        case Skipping(n) =>
          lost := SkipRows(r, n, lost);
          SkipStep(s, p, r.offsetsPosition, lazy, wasLost, stale, rest, lost, r.Lazy());
      }
    }
    EndOfSteps(Rows(s), s, r.offsetsPosition, r.Lazy(), lost, r.cachedElements);
    assert steps[|steps|..] == [] && outputs + [] == outputs;
  }

  /** A run with resets: pass after pass from row 0 on. */
  method ReadPasses(r: ArrayWithOffsetsReader, passes: seq<seq<ReadStep>>)
    returns (outputs: seq<seq<seq<Option<seq<Element>>>>>)
    requires r.Valid() && r.offsetsPosition == 0 && !r.cached && PassesInBounds(|r.streams.offsets|, passes)
    modifies r
    ensures r.Valid() && WellFormed(r.streams)
    ensures outputs == ExpectedPasses(Rows(r.streams), passes) <==>
      ExactPasses(r.streams, old(r.cachedElements), passes)
  {
    hide Exact, Expected, Leftover, WellFormed, Rows, InBounds, ArrayWithOffsetsReader.Loadable;
    outputs := [];
    StreamsWellFormed(r);
    ghost var s := r.streams;
    ghost var whole := ExpectedPasses(Rows(s), passes);
    ghost var exact, right := ExactPasses(s, r.cachedElements, passes), true;
    assert passes[0..] == passes && [] + whole == whole;
    for i := 0 to |passes|
      invariant r.Valid() && r.offsetsPosition == 0 && !r.cached
      invariant right ==> exact == ExactPasses(s, r.cachedElements, passes[i..])
      invariant right ==> whole == outputs + ExpectedPasses(Rows(s), passes[i..])
      invariant !right ==> !exact && Differ(outputs, whole)
    {
      ghost var rest, before, stale := passes[i..], outputs, r.cachedElements;
      assert rest[0] == passes[i] && rest[1..] == passes[i + 1..];
      FreshReader(r);
      var output := ReadRun(r, passes[i]);
      ghost var good := Exact(s, 0, false, false, stale, passes[i]);
      outputs := outputs + [output];
      if right { RowsAgree(before, whole, output, ExpectedPasses(Rows(s), rest)); }
      else { DifferMore(before, whole, output); }
      right := right && good;
      r.Reset();
    }
    assert passes[|passes|..] == [] && outputs + [] == outputs;
  }

  lemma FreshReader(r: ArrayWithOffsetsReader)
    requires r.Valid() && !r.cached
    ensures r.Loadable() && r.Intact() && !r.Lazy()
  {
  }

  // ----- when a run is safe

  /** Every read has a row that is not null, or nothing has been skipped before it. */
  predicate Careful(rows: seq<Option<seq<Element>>>, p: nat, skipped: bool, steps: seq<ReadStep>)
    requires InBounds(|rows|, p, steps)
    decreases |steps|
  {
    steps == [] ||
    (var next := p + steps[0].Count();
     match steps[0]
     case Skipping(_) => Careful(rows, next, true, steps[1..])
     case Take(_) => (skipped ==> !AllNull(rows[p..next])) && Careful(rows, next, skipped, steps[1..]))
  }

  /** A caller can check this on the rows alone. */
  lemma {:induction false} CarefulIsSafe(s: Streams, p: nat, lazy: bool, skipped: bool, steps: seq<ReadStep>)
    requires WellFormed(s) && InBounds(|s.offsets|, p, steps) && (lazy ==> skipped)
    requires Careful(Rows(s), p, skipped, steps)
    ensures Safe(s.offsets, p, lazy, false, steps)
    decreases |steps|
  {
    hide Seen, Ordered, ArrayAt, Sum, CountTrue, Repeats;
    if steps != [] {
      var next := p + steps[0].Count();
      match steps[0] {
        case Skipping(_) =>
          CarefulIsSafe(s, next, true, true, steps[1..]);
          CarefulIsSafe(s, next, lazy, true, steps[1..]);
        case Take(_) =>
          NullRows(s, p, next);
          CarefulIsSafe(s, next, false, skipped, steps[1..]);
      }
    }
  }

  lemma NullRows(s: Streams, p: nat, next: nat)
    requires WellFormed(s) && p <= next <= |s.offsets|
    ensures AllNull(Rows(s)[p..next]) == AllNull(s.offsets[p..next])
  {
    hide Seen, Ordered, ArrayAt, Sum;
    var rows, offsets := Rows(s)[p..next], s.offsets[p..next];
    forall k | 0 <= k < next - p ensures rows[k].None? == offsets[k].None? {
      assert rows[k] == Rows(s)[p + k] && offsets[k] == s.offsets[p + k];
    }
  }

  lemma {:induction false} OnlyReadsAreCareful(rows: seq<Option<seq<Element>>>, p: nat, steps: seq<ReadStep>)
    requires InBounds(|rows|, p, steps) && forall k :: 0 <= k < |steps| ==> steps[k].Take?
    ensures Careful(rows, p, false, steps)
    decreases |steps|
  {
    if steps != [] { OnlyReadsAreCareful(rows, p + steps[0].Count(), steps[1..]); }
  }

  /**
    What goes wrong otherwise: the array [7] is skipped, a null is read, and the next row, the same array
    again, does not come back.  Here it gets what is left in the cache, which is nothing; the source reads on
    beyond that.
   */
  method LostArray() returns (got: seq<Option<seq<Element>>>, expected: seq<Option<seq<Element>>>)
    ensures expected == [Some([7])] && |got| == 1 && got != expected
  {
    hide CountTrue, Rank, Merge;
    var s := Streams([Some(0), None, Some(0)], [1], [7]);
    Small(s);
    var r := new ArrayWithOffsetsReader(s);
    r.Skip(1);
    SpreadAll<nat>([None]);
    SpreadAll(s.offsets[2..3]);
    var scatter := [true];
    assert scatter == Repeat(true, 1);
    var indices, values, nonNulls;
    ghost var rows;
    assert s.offsets[1..2] == [None];
    indices, values, nonNulls, rows := r.Next(1, scatter);
    assert r.cachedElements == [];
    assert s.offsets[2..3] == [Some(0)];
    indices, values, nonNulls, rows := r.Next(1, scatter);
    got := Unwrap(indices, values, nonNulls);
    expected := Rows(s)[2..3];
  }

  lemma Small(s: Streams)
    requires s == Streams([Some(0), None, Some(0)], [1], [7])
    ensures WellFormed(s) && Rows(s)[2..3] == [Some([7])]
    ensures Seen(s.offsets, 0, 0) == 0 && Seen(s.offsets, 0, 1) == 1 && Seen(s.offsets, 0, 2) == 1
  {
    assert Sum([1][1..]) == 0;
    assert s.lengths[..1] == [1] && s.lengths[..0] == [];
    assert ArrayAt(s, 0) == [7];
  }

  // ----- written and read back

  /** One stripe: any batches, and any chunks handed over between them. */
  method WriteStripe(writer: ArrayWithOffsetsWriter, steps: seq<WriteStep>) returns (s: Streams)
    requires writer.Valid() && writer.written == [] && writer.streams == Streams([], [], []) && writer.last == None
    requires Writable(steps)
    modifies writer
    ensures writer.Valid() && writer.written == [] && writer.streams == Streams([], [], []) && writer.last == None
    ensures s == Written(steps, |steps|).streams && Encoded(s, StepRows(steps, |steps|))
  {
    hide ArrayWithOffsetsWriter.Consistent, Ingested, Encoded, Batch.Rows, Batch.Valid, EndsWith;
    for i := 0 to |steps|
      invariant writer.Valid() && writer.written == StepRows(steps, i)
      invariant writer.streams == Written(steps, i).streams && writer.last == Written(steps, i).last
    {
      match steps[i] {
        case WriteBatch(b, alreadyEncoded) => writer.Write(b, alreadyEncoded);
        case HandOver(offsets, lengths, elements) => writer.FlushChunk(offsets, lengths, elements);
      }
    }
    s := writer.Stored();
    writer.Reset();
  }

  /**
    Any stripes, each of any batches and chunks, and any run of reads, skips and resets on any one of them: the
    rows come back exactly when no read begins with a lost array, and so for careful runs.
   */
  method WriteAndRead(stripes: seq<seq<WriteStep>>, stripe: nat, passes: seq<seq<ReadStep>>)
    returns (s: Streams, outputs: seq<seq<seq<Option<seq<Element>>>>>)
    requires stripe < |stripes| && forall i :: 0 <= i < |stripes| ==> Writable(stripes[i])
    requires PassesInBounds(|StepRows(stripes[stripe], |stripes[stripe]|)|, passes)
    ensures
      var steps, rows := stripes[stripe], StepRows(stripes[stripe], |stripes[stripe]|);
      && Encoded(s, rows) && s == Written(steps, |steps|).streams && Shared(s.offsets, Sources(steps, |steps|), rows, 0)
      && (ByElements(steps) ==> Deduplicated(s.offsets, rows) && |s.lengths| == Changes(rows, |rows|))
      && (outputs == ExpectedPasses(rows, passes) <==> ExactPasses(s, [], passes))
      && (CarefulPasses(rows, passes) ==> outputs == ExpectedPasses(rows, passes))
  {
    hide Writable, Written, StepRows, ExactPasses, ExpectedPasses, PassesInBounds, CarefulPasses, Rows, Sources, Shared;
    hide Ordered, Seen, Sum, Deduplicated, ByElements, Changes;
    hide ArrayWithOffsetsWriter.Valid, ArrayWithOffsetsReader.Valid;
    var writer := new ArrayWithOffsetsWriter();
    var stored: seq<Streams> := [];
    for i := 0 to |stripes|
      invariant fresh(writer) && writer.Valid() && writer.written == [] && |stored| == i
      invariant writer.streams == Streams([], [], []) && writer.last == None
      invariant forall k :: 0 <= k < i ==>
        && stored[k] == Written(stripes[k], |stripes[k]|).streams
        && Encoded(stored[k], StepRows(stripes[k], |stripes[k]|))
    {
      var streams := WriteStripe(writer, stripes[i]);
      stored := stored + [streams];
    }
    s := stored[stripe];
    ghost var rows := StepRows(stripes[stripe], |stripes[stripe]|);
    StepsShared(stripes[stripe]);
    if ByElements(stripes[stripe]) {
      ElementsDeduplicated(stripes[stripe]);
      ArraysAreChanges(s.offsets, rows, |rows|);
    }
    var reader := new ArrayWithOffsetsReader(s);
    if CarefulPasses(rows, passes) { CarefulIsExact(s, [], passes); }
    outputs := ReadPasses(reader, passes);
  }

  /** Every pass is careful. */
  predicate CarefulPasses(rows: seq<Option<seq<Element>>>, passes: seq<seq<ReadStep>>)
    requires PassesInBounds(|rows|, passes)
  {
    forall i :: 0 <= i < |passes| ==> Careful(rows, 0, false, passes[i])
  }

  lemma {:induction false} CarefulIsExact(s: Streams, stale: seq<Element>, passes: seq<seq<ReadStep>>)
    requires WellFormed(s) && PassesInBounds(|s.offsets|, passes) && CarefulPasses(Rows(s), passes)
    ensures ExactPasses(s, stale, passes)
    decreases |passes|
  {
    hide Exact, Safe, Careful, Leftover, Seen, WellFormed, Rows, InBounds;
    if passes != [] {
      CarefulIsSafe(s, 0, false, false, passes[0]);
      SafeIsExact(s, 0, false, false, stale, passes[0]);
      CarefulIsExact(s, Leftover(s, 0, stale, passes[0]), passes[1..]);
    }
  }
}
