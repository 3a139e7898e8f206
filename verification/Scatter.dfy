/**
  Spreading decoded values over their output positions, in place and from the back, and recording
  which positions are null.  A bitmap is an array of bools, one for each bit.
 */
module Scatter {
  import opened Wrappers
  import opened Sequences

  // ----- the plain encodings

  /** The rows read so far sit at the start of the output region; `taken` says where they belong. */
  ghost predicate Spread<T>(buffer: seq<T>, offset: nat, taken: seq<bool>, rows: seq<T>)
  {
    && offset + |taken| <= |buffer| && |rows| == CountTrue(taken)
    && forall k {:trigger taken[k]} :: 0 <= k < |taken| && taken[k] ==>
      buffer[offset + k] == RowAt(taken, rows, k)
  }

  function RowAt<T>(taken: seq<bool>, rows: seq<T>, k: nat): T
    requires |rows| == CountTrue(taken) && k < |taken| && taken[k]
  {
    RankBound(taken, k);
    rows[Rank(taken, k)]
  }

  /** Everything outside the region [from, to) is as it was. */
  predicate SameOutside<T(==)>(before: seq<T>, after: seq<T>, from: nat, to: nat)
  {
    |after| == |before| && forall i :: 0 <= i < |before| && !(from <= i < to) ==> after[i] == before[i]
  }

  /** `BitmapBuilder::copy`: copies whole bytes at the end, so up to seven bits beyond `end`. */
  method CopyBits(dest: array<bool>, source: array<bool>, begin: nat, end: nat)
    requires begin <= end && RoundUp8(end) <= source.Length && RoundUp8(end) <= dest.Length && dest != source
    modifies dest
    ensures forall i :: 0 <= i < dest.Length ==>
      dest[i] == if begin <= i < RoundUp8(end) then source[i] else old(dest[i])
  {
    for i := begin to RoundUp8(end)
      invariant forall j :: 0 <= j < dest.Length ==> dest[j] == if begin <= j < i then source[j] else old(dest[j])
    {
      dest[i] := source[i];
    }
  }

  function RoundUp8(n: nat): (r: nat)
    ensures n <= r < n + 8
  {
    (n + 7) / 8 * 8
  }

  /** The backward loop of `TypedEncoding::materializeNullable`. */
  method ScatterBackward<T>(buffer: array<T>, offset: nat, rowCount: nat, taken: seq<bool>)
    requires offset + |taken| <= buffer.Length && rowCount < |taken| && CountTrue(taken) == rowCount
    modifies buffer
    ensures Spread(buffer[..], offset, taken, old(buffer[offset..offset + rowCount]))
    ensures SameOutside(old(buffer[..]), buffer[..], offset, offset + |taken|)
  {
    hide CountTrue, Rank;
    ghost var rows := buffer[offset..offset + rowCount];
    var output: int := offset + |taken| - 1;
    var source: int := offset + rowCount - 1;
    RankAll(taken);
    while output != source
      invariant offset - 1 <= source <= output < offset + |taken| && source < offset + rowCount
      invariant source + 1 - offset == Rank(taken, output + 1 - offset)
      invariant forall i :: offset <= i <= source ==> buffer[i] == rows[i - offset]
      invariant forall k {:trigger taken[k]} :: output + 1 - offset <= k < |taken| && taken[k] ==>
        buffer[offset + k] == RowAt(taken, rows, k)
      invariant forall i :: 0 <= i < buffer.Length && !(offset <= i < offset + |taken|) ==> buffer[i] == old(buffer[i])
      decreases output
    {
      RankNext(taken, output - offset);
      if taken[output - offset] {
        buffer[output] := buffer[source];
        source := source - 1;
      }
      output := output - 1;
    }
    FullPrefix(taken, output + 1 - offset);
  }

  // ----- the nullable encoding

  /** The loop of `NullableEncoding::materialize`: null rows take the default value. */
  method ScatterDefaults<T>(buffer: array<T>, present: seq<bool>, nonNullCount: nat, default: T)
    requires |present| == buffer.Length && CountTrue(present) == nonNullCount
    modifies buffer
    ensures buffer[..] ==
      Merge(present, old(buffer[..nonNullCount]), Repeat(default, |present| - nonNullCount))
  {
    ghost var rows := buffer[..nonNullCount];
    ghost var merged := Merge(present, rows, Repeat(default, |present| - nonNullCount));
    var output: int := |present| - 1;
    var lastNonNull: int := nonNullCount - 1;
    RankAll(present);
    while output != lastNonNull
      invariant -1 <= lastNonNull <= output < |present| && lastNonNull < nonNullCount
      invariant lastNonNull + 1 == Rank(present, output + 1)
      invariant forall i :: 0 <= i <= lastNonNull ==> buffer[i] == rows[i]
      invariant forall k :: output < k < |present| ==> buffer[k] == merged[k]
      decreases output
    {
      RankNext(present, output);
      MergeAt(present, rows, Repeat(default, |present| - nonNullCount), output);
      if present[output] {
        buffer[output] := buffer[lastNonNull];
        lastNonNull := lastNonNull - 1;
      } else {
        buffer[output] := default;
      }
      output := output - 1;
    }
    FullPrefix(present, output + 1);
    forall k | 0 <= k < |present| ensures buffer[k] == merged[k] {
      if k <= output { MergeAt(present, rows, Repeat(default, |present| - nonNullCount), k); }
    }
  }

  /** Which positions hold a value: scattered to, by a row that is not null. */
  function Taken(scatter: seq<bool>, present: seq<bool>): (taken: seq<bool>)
    requires |present| == CountTrue(scatter)
    ensures |taken| == |scatter|
  {
    Merge(scatter, present, Repeat(false, |scatter| - |present|))
  }

  lemma TakenCount(scatter: seq<bool>, present: seq<bool>)
    requires |present| == CountTrue(scatter)
    ensures CountTrue(Taken(scatter, present)) == CountTrue(present)
  {
    TakenRank(scatter, present, |scatter|);
  }

  /** A taken position holds the value whose number is the count of present rows before its own. */
  lemma {:induction false} TakenRank(scatter: seq<bool>, present: seq<bool>, k: nat)
    requires |present| == CountTrue(scatter) && k <= |scatter|
    ensures Rank(scatter, k) <= |present|
    ensures Rank(Taken(scatter, present), k) == Rank(present, Rank(scatter, k))
    decreases k
  {
    RankMono(scatter, k, |scatter|);
    if k > 0 {
      TakenRank(scatter, present, k - 1);
      TakenAt(scatter, present, k - 1);
    }
  }

  lemma TakenAt(scatter: seq<bool>, present: seq<bool>, k: nat)
    requires |present| == CountTrue(scatter) && k < |scatter|
    ensures Rank(scatter, k) <= |present|
    ensures scatter[k] ==> Rank(scatter, k) < |present|
    ensures Taken(scatter, present)[k] == (scatter[k] && present[Rank(scatter, k)])
  {
    RankMono(scatter, k, |scatter|);
    RankAll(scatter);
    MergeAt(scatter, present, Repeat(false, |scatter| - |present|), k);
  }

  /** The loops of `NullableEncoding::materializeNullable`, with and without a scatter bitmap. */
  // With every bit of `scatter` set this is the loop without a bitmap.
  method ScatterNullable<T>(
      buffer: array<T>, nulls: array<bool>, offset: nat, scatter: seq<bool>, present: seq<bool>, nonNullCount: nat)
    requires |present| == CountTrue(scatter) && nonNullCount == CountTrue(present) < |scatter|
    requires offset + |scatter| <= buffer.Length && offset + |scatter| <= nulls.Length
    requires buffer as object != nulls as object
    modifies buffer, nulls
    ensures Spread(buffer[..], offset, Taken(scatter, present), old(buffer[offset..offset + nonNullCount]))
    ensures SameOutside(old(buffer[..]), buffer[..], offset, offset + |scatter|)
    ensures nulls[offset..offset + |scatter|] == Taken(scatter, present)
    ensures SameOutside(old(nulls[..]), nulls[..], offset, offset + |scatter|)
  {
    hide CountTrue, Rank, Merge, Tail, Spread, Taken;
    ghost var rows, end := buffer[offset..offset + nonNullCount], offset + |scatter|;
    ghost var taken := Taken(scatter, present);
    TakenCount(scatter, present);
    RankAll(taken);
    RankAll(scatter);
    ClearRange(nulls, offset, offset + |scatter|);
    var output: int := offset + |scatter| - 1;
    var lastNonNull: int := offset + nonNullCount - 1;
    var nonNullIt: int := |present| - 1;
    TailBegins(buffer[..], nulls[..], offset, taken, rows);
    assert SameOutside(old(buffer[..]), buffer[..], offset, end) && SameOutside(old(nulls[..]), nulls[..], offset, end);
    hide SameOutside;
    while output != lastNonNull
      invariant offset - 1 <= lastNonNull <= output < offset + |scatter|
      invariant lastNonNull + 1 - offset == Rank(taken, output + 1 - offset)
      invariant nonNullIt + 1 == Rank(scatter, output + 1 - offset) && nonNullIt < |present|
      invariant Tail(buffer[..], nulls[..], offset, taken, rows, output + 1 - offset, lastNonNull + 1 - offset)
      invariant SameOutside(old(buffer[..]), buffer[..], offset, end)
      invariant SameOutside(old(nulls[..]), nulls[..], offset, end)
      decreases output
    {
      RankNext(taken, output - offset);
      RankNext(scatter, output - offset);
      TakenAt(scatter, present, output - offset);
      ghost var b, n := buffer[..], nulls[..];
      if scatter[output - offset] {
        var nonNull := present[nonNullIt];
        nonNullIt := nonNullIt - 1;
        if nonNull {
          Place(buffer, nulls, output, lastNonNull);
          SameButInside(old(buffer[..]), b, output, buffer[output], offset, end);
          SameButInside(old(nulls[..]), n, output, true, offset, end);
          lastNonNull := lastNonNull - 1;
        }
      }
      TailNext(b, n, buffer[..], nulls[..], offset, taken, rows, output - offset);
      output := output - 1;
    }
    ghost var n := nulls[..];
    FillPrefix(buffer[..], nulls, offset, taken, rows, output + 1 - offset);
    SameThenSame(old(nulls[..]), n, nulls[..], offset, end);
  }

  lemma SameButInside<T>(first: seq<T>, before: seq<T>, at: nat, v: T, from: nat, to: nat)
    requires SameOutside(first, before, from, to) && from <= at < to <= |first|
    ensures SameOutside(first, before[at := v], from, to)
  {
  }

  lemma SameThenSame<T>(first: seq<T>, before: seq<T>, after: seq<T>, from: nat, to: nat)
    requires SameOutside(first, before, from, to) && SameOutside(before, after, from, to)
    ensures SameOutside(first, after, from, to)
  {
  }

  method Place<T>(buffer: array<T>, nulls: array<bool>, output: nat, source: nat)
    requires source < buffer.Length && output < buffer.Length && output < nulls.Length
    requires buffer as object != nulls as object
    modifies buffer, nulls
    ensures nulls[..] == old(nulls[..])[output := true]
    ensures buffer[..] == old(buffer[..])[output := old(buffer[source])]
  {
    nulls[output] := true;
    buffer[output] := buffer[source];
  }

  /** What is left when the loop stops is non-null and in place. */
  method FillPrefix<T>(
      ghost buffer: seq<T>, nulls: array<bool>, offset: nat, ghost taken: seq<bool>, ghost rows: seq<T>, done: nat)
    requires done <= |taken| && Rank(taken, done) == done && Tail(buffer, nulls[..], offset, taken, rows, done, done)
    modifies nulls
    ensures Spread(buffer, offset, taken, rows)
    ensures offset + |taken| <= nulls.Length && nulls[offset..offset + |taken|] == taken
    ensures SameOutside(old(nulls[..]), nulls[..], offset, offset + |taken|)
  {
    TailDone(buffer, nulls[..], offset, taken, rows, done);
    if done > 0 {
      SetRange(nulls, offset, offset + done);
    }
    assert nulls[offset..offset + |taken|] == taken;
  }

  /** Positions from `done` on are final; the first rows still wait at the start of the region. */
  ghost predicate Tail<T>(
    buffer: seq<T>, nulls: seq<bool>, offset: nat, taken: seq<bool>, rows: seq<T>, done: nat, left: nat)
  {
    && offset + |taken| <= |buffer| && offset + |taken| <= |nulls|
    && |rows| == CountTrue(taken) && left <= |rows| && left <= done <= |taken|
    && (forall i :: 0 <= i < left ==> buffer[offset + i] == rows[i])
    && (forall k {:trigger taken[k]} :: done <= k < |taken| && taken[k] ==> buffer[offset + k] == RowAt(taken, rows, k))
    && (forall i :: offset <= i < offset + done ==> !nulls[i])
    && (forall i :: offset + done <= i < offset + |taken| ==> nulls[i] == taken[i - offset])
  }

  lemma TailBegins<T>(buffer: seq<T>, nulls: seq<bool>, offset: nat, taken: seq<bool>, rows: seq<T>)
    requires offset + |taken| <= |buffer| && offset + |taken| <= |nulls| && |rows| == CountTrue(taken)
    requires buffer[offset..offset + |rows|] == rows
    requires forall i :: offset <= i < offset + |taken| ==> !nulls[i]
    ensures Tail(buffer, nulls, offset, taken, rows, |taken|, |rows|)
  {
    forall i | 0 <= i < |rows| ensures buffer[offset + i] == rows[i] {
      assert buffer[offset..offset + |rows|][i] == buffer[offset + i];
    }
  }

  lemma TailNext<T>(
      b: seq<T>, n: seq<bool>, b': seq<T>, n': seq<bool>, offset: nat, taken: seq<bool>, rows: seq<T>, k: nat)
    requires k < |taken|
    requires Rank(taken, k + 1) == Rank(taken, k) + (if taken[k] then 1 else 0)
    requires Tail(b, n, offset, taken, rows, k + 1, Rank(taken, k + 1))
    requires n' == if taken[k] then n[offset + k := true] else n
    requires b' == if taken[k] then b[offset + k := b[offset + Rank(taken, k)]] else b
    ensures Tail(b', n', offset, taken, rows, k, Rank(taken, k))
  {
    if taken[k] { RankBound(taken, k); }
  }

  lemma TailDone<T>(buffer: seq<T>, nulls: seq<bool>, offset: nat, taken: seq<bool>, rows: seq<T>, done: nat)
    requires done <= |taken| && Rank(taken, done) == done && Tail(buffer, nulls, offset, taken, rows, done, done)
    ensures Spread(buffer, offset, taken, rows)
    ensures forall i :: 0 <= i < done ==> taken[i]
    ensures forall i :: offset + done <= i < offset + |taken| ==> nulls[i] == taken[i - offset]
  {
    FullPrefix(taken, done);
  }

  method ClearRange(bits: array<bool>, begin: nat, end: nat)
    requires begin <= end <= bits.Length
    modifies bits
    ensures forall i :: 0 <= i < bits.Length ==> bits[i] == (old(bits[i]) && !(begin <= i < end))
  {
    for i := begin to end
      invariant forall j :: 0 <= j < bits.Length ==> bits[j] == (old(bits[j]) && !(begin <= j < i))
    {
      bits[i] := false;
    }
  }

  method SetRange(bits: array<bool>, begin: nat, end: nat)
    requires begin <= end <= bits.Length
    modifies bits
    ensures forall i :: 0 <= i < bits.Length ==> bits[i] == (old(bits[i]) || begin <= i < end)
  {
    for i := begin to end
      invariant forall j :: 0 <= j < bits.Length ==> bits[j] == (old(bits[j]) || begin <= j < i)
    {
      bits[i] := true;
    }
  }

  // ----- what a scattered read leaves

  /** A region of a bitmap: its bits are those before `size`. */
  datatype Bitmap = Bitmap(bits: array<bool>, size: nat)

  /** Every row that is not null sits at its scatter position. */
  ghost predicate Placed<T>(buffer: seq<T>, offset: nat, scatter: seq<bool>, present: seq<bool>, rows: seq<T>)
  {
    && offset + |scatter| <= |buffer| && |present| == |rows| == CountTrue(scatter)
    && forall k {:trigger scatter[k]} :: 0 <= k < |scatter| && scatter[k] && RowAt(scatter, present, k) ==>
      buffer[offset + k] == RowAt(scatter, rows, k)
  }

  /** Values spread over the taken positions are rows at their scatter positions. */
  lemma SpreadIsPlaced<T>(
      buffer: seq<T>, offset: nat, scatter: seq<bool>, present: seq<bool>, values: seq<T>, others: seq<T>)
    requires |present| == CountTrue(scatter)
    requires |values| == CountTrue(present) && |others| == |present| - |values|
    requires Spread(buffer, offset, Taken(scatter, present), values)
    ensures Placed(buffer, offset, scatter, present, Merge(present, values, others))
  {
    hide CountTrue, Merge, Rank, Taken;
    var rows, taken := Merge(present, values, others), Taken(scatter, present);
    forall k {:trigger scatter[k]} | 0 <= k < |scatter| && scatter[k] && RowAt(scatter, present, k)
      ensures buffer[offset + k] == RowAt(scatter, rows, k)
    {
      RankBound(scatter, k);
      TakenAt(scatter, present, k);
      TakenRank(scatter, present, k);
      MergeAt(present, values, others, Rank(scatter, k));
      assert taken[k];
    }
  }

  /** Without nulls every scatter position is taken. */
  lemma {:induction false} AllTaken(scatter: seq<bool>)
    ensures Taken(scatter, Repeat(true, CountTrue(scatter))) == scatter
  {
    var present := Repeat(true, CountTrue(scatter));
    forall k | 0 <= k < |scatter| ensures Taken(scatter, present)[k] == scatter[k] {
      TakenAt(scatter, present, k);
    }
  }

  lemma {:induction false} CountRepeat(n: nat)
    ensures CountTrue(Repeat(true, n)) == n
  {
    RankRepeat(n, n);
  }

  lemma PlacedWithoutNulls<T>(buffer: seq<T>, offset: nat, scatter: seq<bool>, rows: seq<T>)
    requires Spread(buffer, offset, scatter, rows)
    ensures Placed(buffer, offset, scatter, Repeat(true, |rows|), rows)
  {
  }

  /** When every position takes a row, the rows are simply in order. */
  lemma PlacedInOrder<T>(buffer: seq<T>, offset: nat, scatter: seq<bool>, rows: seq<T>)
    requires CountTrue(scatter) == |scatter| == |rows| && offset + |rows| <= |buffer|
    requires buffer[offset..offset + |rows|] == rows
    ensures Spread(buffer, offset, scatter, rows)
  {
    RankAll(scatter);
    FullPrefix(scatter, |scatter|);
    forall k {:trigger scatter[k]} | 0 <= k < |scatter| && scatter[k]
      ensures buffer[offset + k] == RowAt(scatter, rows, k) {
      assert buffer[offset..offset + |rows|][k] == buffer[offset + k];
    }
  }

  /** Rows written where a read starts. */
  method WriteRows<T>(buffer: array<T>, offset: nat, rows: seq<T>)
    requires offset + |rows| <= buffer.Length
    modifies buffer
    ensures buffer[offset..offset + |rows|] == rows
    ensures SameOutside(old(buffer[..]), buffer[..], offset, offset + |rows|)
  {
    for i := 0 to |rows|
      invariant forall j :: 0 <= j < i ==> buffer[offset + j] == rows[j]
      invariant forall j :: 0 <= j < buffer.Length && !(offset <= j < offset + |rows|) ==> buffer[j] == old(buffer[j])
    {
      buffer[offset + i] := rows[i];
    }
  }

  // ----- scattered reads

  /** The output positions of a read, set where a row goes. */
  ghost function Positions(scatterBitmap: Option<Bitmap>, n: nat, offset: nat): (scatter: seq<bool>)
    requires scatterBitmap.Some? ==> offset <= scatterBitmap.value.size <= scatterBitmap.value.bits.Length
    reads if scatterBitmap.Some? then {scatterBitmap.value.bits} else {}
    ensures scatterBitmap.None? ==> CountTrue(scatter) == n
  {
    match scatterBitmap
    case None => CountRepeat(n); Repeat(true, n)
    case Some(bitmap) => bitmap.bits[offset..bitmap.size]
  }

  /** Bitmaps are whole bytes, and as many positions are set as rows are read. */
  ghost predicate ScatterFits<T>(
      scatterBitmap: Option<Bitmap>, n: nat, buffer: array<T>, nulls: array?<bool>, offset: nat)
    reads if scatterBitmap.Some? then {scatterBitmap.value.bits} else {}
  {
    && buffer as object != nulls as object?
    && (scatterBitmap.Some? ==>
      && offset <= scatterBitmap.value.size && RoundUp8(scatterBitmap.value.size) <= scatterBitmap.value.bits.Length
      && scatterBitmap.value.bits != nulls && scatterBitmap.value.bits as object != buffer as object
      && CountTrue(Positions(scatterBitmap, n, offset)) == n)
    && offset + |Positions(scatterBitmap, n, offset)| <= buffer.Length
    && (nulls != null ==> RoundUp8(offset + |Positions(scatterBitmap, n, offset)|) <= nulls.Length)
  }

  /** The rows read sit at their positions, and nothing outside the output positions changed. */
  ghost predicate Scattered<T>(
      scatter: seq<bool>, present: seq<bool>, rows: seq<T>, offset: nat, before: seq<T>, after: seq<T>)
  {
    && |present| == |rows| == CountTrue(scatter)
    && Placed(after, offset, scatter, present, rows)
    && SameOutside(before, after, offset, offset + |scatter|)
  }

  /** The bitmap says exactly which positions hold a value, or it was not asked for because all do. */
  ghost predicate NullsExact(
      scatter: seq<bool>, present: seq<bool>, offset: nat, before: seq<bool>, after: seq<bool>)
  {
    && |present| == CountTrue(scatter)
    && if CountTrue(present) == |scatter| then after == before
       else
         && offset + |scatter| <= |after| && after[offset..offset + |scatter|] == Taken(scatter, present)
         && SameOutside(before, after, offset, RoundUp8(offset + |scatter|))
  }

  /** `TypedEncoding::materializeNullable`, once the rows are read. */
  method ScatterRows<T>(
      rows: seq<T>, buffer: array<T>, nulls: array?<bool>, scatterBitmap: Option<Bitmap>, offset: nat)
    requires ScatterFits(scatterBitmap, |rows|, buffer, nulls, offset)
    requires nulls == null ==> scatterBitmap.None?
    modifies buffer, nulls
    ensures Scattered(old(Positions(scatterBitmap, |rows|, offset)), Repeat(true, |rows|), rows, offset,
      old(buffer[..]), buffer[..])
    ensures nulls != null ==>
      NullsExact(old(Positions(scatterBitmap, |rows|, offset)), Repeat(true, |rows|), offset,
        old(nulls[..]), nulls[..])
  {
    hide CountTrue, Merge, Placed, Spread, Rank, Taken;
    ghost var scatter := Positions(scatterBitmap, |rows|, offset);
    CountRepeat(|rows|);
    AllTaken(scatter);
    WriteRows(buffer, offset, rows);
    var scatterCount := if scatterBitmap.Some? then scatterBitmap.value.size - offset else |rows|;
    if scatterCount == |rows| {
      PlacedInOrder(buffer[..], offset, scatter, rows);
    } else {
      RankMono(scatter, 0, |scatter|);
      RankAll(scatter);
      CopyBits(nulls, scatterBitmap.value.bits, offset, offset + scatterCount);
      assert nulls[offset..offset + scatterCount] == scatter;
      ScatterBackward(buffer, offset, |rows|, scatterBitmap.value.bits[offset..scatterBitmap.value.size]);
    }
    PlacedWithoutNulls(buffer[..], offset, scatter, rows);
  }

  /** `NullableEncoding::materializeNullable`, once the null flags and the values are read. */
  method ScatterNonNulls<T>(
      values: seq<T>, present: seq<bool>, buffer: array<T>, nulls: array?<bool>, scatterBitmap: Option<Bitmap>,
      offset: nat, ghost default: T)
    requires |values| == CountTrue(present) && ScatterFits(scatterBitmap, |present|, buffer, nulls, offset)
    requires nulls == null ==> scatterBitmap.None? && |values| == |present|
    modifies buffer, nulls
    ensures Scattered(old(Positions(scatterBitmap, |present|, offset)), present,
      Merge(present, values, Repeat(default, |present| - |values|)), offset, old(buffer[..]), buffer[..])
    ensures nulls != null ==>
      NullsExact(old(Positions(scatterBitmap, |present|, offset)), present, offset, old(nulls[..]), nulls[..])
  {
    hide CountTrue, Merge, Placed, Spread, Rank, Taken;
    ghost var scatter := Positions(scatterBitmap, |present|, offset);
    RankMono(scatter, 0, |scatter|);
    RankAll(scatter);
    WriteRows(buffer, offset, values);
    var scatterSize := if scatterBitmap.Some? then scatterBitmap.value.size - offset else |present|;
    if |values| != scatterSize {
      var positions :=
        if scatterBitmap.Some? then scatterBitmap.value.bits[offset..scatterBitmap.value.size]
        else Repeat(true, |present|);
      ScatterNullable(buffer, nulls, offset, positions, present, |values|);
    } else {
      FullScatter(scatter, present);
      PlacedInOrder(buffer[..], offset, scatter, values);
    }
    SpreadIsPlaced(buffer[..], offset, scatter, present, values, Repeat(default, |present| - |values|));
  }

  /** When every position holds a value, every position is taken. */
  lemma FullScatter(scatter: seq<bool>, present: seq<bool>)
    requires |present| == CountTrue(scatter) && CountTrue(present) == |scatter|
    ensures |present| == |scatter| && Taken(scatter, present) == scatter == Repeat(true, |scatter|)
  {
    RankAll(scatter);
    RankAll(present);
    FullPrefix(scatter, |scatter|);
    FullPrefix(present, |present|);
    forall k | 0 <= k < |scatter| ensures Taken(scatter, present)[k] == scatter[k] {
      TakenAt(scatter, present, k);
    }
  }

  // ----- two reads, one after the other

  lemma TakenJoin(s1: seq<bool>, s2: seq<bool>, p1: seq<bool>, p2: seq<bool>)
    requires |p1| == CountTrue(s1) && |p2| == CountTrue(s2)
    ensures CountTrue(s1 + s2) == |p1 + p2|
    ensures Taken(s1 + s2, p1 + p2) == Taken(s1, p1) + Taken(s2, p2)
  {
    hide CountTrue, Rank, Taken;
    RankConcat(s1, s2, |s1|);
    RankAll(s1);
    RankAll(s2);
    var taken, joined := Taken(s1 + s2, p1 + p2), Taken(s1, p1) + Taken(s2, p2);
    forall k | 0 <= k < |s1| + |s2| ensures taken[k] == joined[k] {
      TakenAt(s1 + s2, p1 + p2, k);
      RankConcat(s1, s2, k);
      if k < |s1| { TakenAt(s1, p1, k); } else { TakenAt(s2, p2, k - |s1|); }
    }
  }

  lemma PlacedJoin<T>(
      first: seq<T>, second: seq<T>, s1: seq<bool>, s2: seq<bool>, p1: seq<bool>, p2: seq<bool>, r1: seq<T>, r2: seq<T>)
    requires Placed(first, 0, s1, p1, r1) && Placed(second, |s1|, s2, p2, r2)
    requires SameOutside(first, second, |s1|, |s1| + |s2|)
    ensures Placed(second, 0, s1 + s2, p1 + p2, r1 + r2)
  {
    hide CountTrue, Rank;
    var s, p, r := s1 + s2, p1 + p2, r1 + r2;
    RankConcat(s1, s2, |s1|);
    RankAll(s1);
    RankAll(s2);
    forall k {:trigger s[k]} | 0 <= k < |s| && s[k] && RowAt(s, p, k) ensures second[k] == RowAt(s, r, k) {
      RankConcat(s1, s2, k);
      RankBound(s, k);
      if k < |s1| {
        assert s1[k];
        RankBound(s1, k);
      } else {
        assert s2[k - |s1|];
        RankBound(s2, k - |s1|);
        assert second[|s1| + (k - |s1|)] == second[k];
      }
    }
  }
}
