/**
  Reading a stream that is stored as a sequence of separately encoded chunks.  A read may end in the
  middle of a chunk and may span several; whatever the chunking, it places the rows of the
  concatenated chunks and, once some position is null, leaves an exact null bitmap.
 */
module ChunkedStreams {
  import opened Wrappers
  import opened Sequences
  import opened BitMath
  import opened Format
  import opened Scatter
  import opened Encodings
  import opened EncodingFactory
  import BitScan

  // ----- the rows of a stream

  /** Every chunk is a column with at least one row. */
  predicate WellFormed(z: Unpacker, chunks: seq<seq<Byte>>)
  {
    forall k :: 0 <= k < |chunks| ==> Denote(z, chunks[k]).Some? && Denote(z, chunks[k]).value.values != []
  }

  function StreamRows(z: Unpacker, chunks: seq<seq<Byte>>): seq<Value>
    requires WellFormed(z, chunks)
  {
    if chunks == [] then []
    else StreamRows(z, chunks[..|chunks| - 1]) + Denote(z, chunks[|chunks| - 1]).value.values
  }

  function PresentRows(z: Unpacker, chunks: seq<seq<Byte>>): seq<bool>
    requires WellFormed(z, chunks)
  {
    if chunks == [] then []
    else PresentRows(z, chunks[..|chunks| - 1]) + Denote(z, chunks[|chunks| - 1]).value.present
  }

  lemma ColumnLengths(z: Unpacker, d: seq<Byte>)
    ensures Denote(z, d).Some? ==> |Denote(z, d).value.present| == |Denote(z, d).value.values|
  {
  }

  lemma {:induction false} RowsLengths(z: Unpacker, chunks: seq<seq<Byte>>)
    requires WellFormed(z, chunks)
    ensures |PresentRows(z, chunks)| == |StreamRows(z, chunks)|
  {
    hide Denote;
    if chunks != [] {
      RowsLengths(z, chunks[..|chunks| - 1]);
      ColumnLengths(z, chunks[|chunks| - 1]);
    }
  }

  /** The rows of chunk `k` sit in the stream after those of the chunks before it. */
  lemma {:induction false} ChunkRows(z: Unpacker, chunks: seq<seq<Byte>>, k: nat)
    requires WellFormed(z, chunks) && k < |chunks|
    ensures StreamRows(z, chunks[..k + 1]) == StreamRows(z, chunks[..k]) + Denote(z, chunks[k]).value.values
    ensures PresentRows(z, chunks[..k + 1]) == PresentRows(z, chunks[..k]) + Denote(z, chunks[k]).value.present
    ensures StreamRows(z, chunks[..k + 1]) <= StreamRows(z, chunks)
    ensures PresentRows(z, chunks[..k + 1]) <= PresentRows(z, chunks)
    decreases |chunks|
  {
    hide Denote;
    var n := |chunks| - 1;
    assert chunks[..k + 1][..k] == chunks[..k];
    if k == n {
      assert chunks[..k + 1] == chunks;
    } else {
      ChunkRows(z, chunks[..n], k);
      assert chunks[..n][..k + 1] == chunks[..k + 1] && chunks[..n][..k] == chunks[..k];
    }
  }

  // ----- the null bitmap across chunks

  /**
    After `offset` positions: either every one holds a value and the bitmap has not been touched, or
    it is exact for all of them.
   */
  ghost predicate NullsSoFar(
    scatter: seq<bool>, present: seq<bool>, offset: nat, before: seq<bool>, now: seq<bool>, hasNulls: bool)
  {
    && offset <= |scatter| && |present| == CountTrue(scatter[..offset])
    && hasNulls == (CountTrue(present) != offset)
    && if !hasNulls then now == before
       else
         && offset <= |now| && now[..offset] == Taken(scatter[..offset], present)
         && SameOutside(before, now, 0, RoundUp8(offset))
  }

  lemma NoNullsYet(scatter: seq<bool>, before: seq<bool>)
    ensures NullsSoFar(scatter, [], 0, before, before, false)
  {
    RankAll(scatter[..0]);
  }

  /** Fills in the positions that the chunks without nulls left out. */
  method RepairNulls(
      nulls: array<bool>, offset: nat, endOffset: nat, hasNulls: bool, chunkNonNullCount: nat,
      ghost scatter: seq<bool>, ghost p1: seq<bool>, ghost p2: seq<bool>, ghost before: seq<bool>, ghost mid: seq<bool>)
    returns (nowHasNulls: bool)
    requires NullsSoFar(scatter, p1, offset, before, mid, hasNulls)
    requires offset <= endOffset <= |scatter| && RoundUp8(endOffset) <= nulls.Length
    requires NullsExact(scatter[offset..endOffset], p2, offset, mid, nulls[..]) && chunkNonNullCount == CountTrue(p2)
    modifies nulls
    ensures NullsSoFar(scatter, p1 + p2, endOffset, before, nulls[..], nowHasNulls)
  {
    hide CountTrue, Rank, Taken, NullsSoFar, NullsExact;
    ghost var written := nulls[..];
    var chunkHasNulls := chunkNonNullCount != endOffset - offset;
    if chunkHasNulls && !hasNulls { SetRange(nulls, 0, offset); }
    nowHasNulls := hasNulls || chunkHasNulls;
    if nowHasNulls && !chunkHasNulls { SetRange(nulls, offset, endOffset); }
    NullsRepaired(scatter, p1, p2, offset, endOffset, before, mid, written, nulls[..], hasNulls, chunkHasNulls);
  }

  lemma NullsRepaired(
      scatter: seq<bool>, p1: seq<bool>, p2: seq<bool>, offset: nat, endOffset: nat,
      before: seq<bool>, mid: seq<bool>, written: seq<bool>, now: seq<bool>, hasNulls: bool, chunkHasNulls: bool)
    requires NullsSoFar(scatter, p1, offset, before, mid, hasNulls)
    requires offset <= endOffset <= |scatter| && RoundUp8(endOffset) <= |written| == |now|
    requires NullsExact(scatter[offset..endOffset], p2, offset, mid, written)
    requires chunkHasNulls == (CountTrue(p2) != endOffset - offset)
    requires
      if chunkHasNulls && !hasNulls then
        forall i :: 0 <= i < |now| ==> now[i] == (written[i] || 0 <= i < offset)
      else if hasNulls && !chunkHasNulls then
        forall i :: 0 <= i < |now| ==> now[i] == (written[i] || offset <= i < endOffset)
      else now == written
    ensures NullsSoFar(scatter, p1 + p2, endOffset, before, now, hasNulls || chunkHasNulls)
  {
    hide CountTrue, Rank, Taken;
    var s1, s2 := scatter[..offset], scatter[offset..endOffset];
    assert scatter[..endOffset] == s1 + s2;
    TakenJoin(s1, s2, p1, p2);
    RankConcat(p1, p2, |p1|);
    NullsCount(s1, p1);
    NullsCount(s2, p2);
    if hasNulls || chunkHasNulls {
      if !hasNulls { FullScatter(s1, p1); }
      if !chunkHasNulls { FullScatter(s2, p2); }
      var joined := Taken(s1, p1) + Taken(s2, p2);
      forall i | 0 <= i < endOffset ensures now[i] == joined[i] {
        if i < offset {
          if hasNulls { assert mid[..offset][i] == mid[i]; }
        } else if chunkHasNulls {
          assert written[offset..endOffset][i - offset] == written[i];
        }
      }
      SamePrefix(now, joined);
    }
  }

  lemma SamePrefix(bits: seq<bool>, prefix: seq<bool>)
    requires |prefix| <= |bits| && forall i :: 0 <= i < |prefix| ==> bits[i] == prefix[i]
    ensures bits[..|prefix|] == prefix
  {
  }

  lemma NullsCount(scatter: seq<bool>, present: seq<bool>)
    requires |present| == CountTrue(scatter)
    ensures CountTrue(present) <= |scatter|
  {
  }

  /** The positions from `offset` on take the `left` rows that remain to be read. */
  ghost predicate TailFits(
      scatterBitmap: Option<Bitmap>, left: nat, output: array<Value>, nulls: array?<bool>, offset: nat,
      scatter: seq<bool>)
    reads if scatterBitmap.Some? then {scatterBitmap.value.bits} else {}
  {
    && offset <= |scatter| && CountTrue(scatter[offset..]) == left
    && |scatter| <= output.Length && (nulls != null ==> RoundUp8(|scatter|) <= nulls.Length)
    && match scatterBitmap
       case None => scatter == Repeat(true, |scatter|)
       case Some(bitmap) =>
         && bitmap.size == |scatter| && RoundUp8(bitmap.size) <= bitmap.bits.Length &&
           scatter == bitmap.bits[..bitmap.size]
         && bitmap.bits != nulls
  }

  lemma AllFits(
      scatterBitmap: Option<Bitmap>, count: nat, output: array<Value>, nulls: array?<bool>, scatter: seq<bool>)
    requires ScatterFits(scatterBitmap, count, output, nulls, 0) && scatter == Positions(scatterBitmap, count, 0)
    ensures TailFits(scatterBitmap, count, output, nulls, 0, scatter)
  {
    hide CountTrue, Rank;
    assert scatter[0..] == scatter;
    if scatterBitmap.Some? {
      assert scatterBitmap.value.bits[0..scatterBitmap.value.size] ==
        scatterBitmap.value.bits[..scatterBitmap.value.size];
    }
  }

  lemma RepeatPart(n: nat, i: nat, j: nat)
    requires i <= j <= n
    ensures Repeat(true, n)[i..j] == Repeat(true, j - i) && CountTrue(Repeat(true, n)[i..j]) == j - i
  {
    CountRepeat(j - i);
  }

  /** Where the positions of a chunk's rows end: before the set bit of the next chunk's first row. */
  method ChunkEnd(
      scatterBitmap: Option<Bitmap>, left: nat, rowsToRead: nat, offset: nat, ghost scatter: seq<bool>)
    returns (endOffset: nat)
    requires 0 < rowsToRead <= left && offset <= |scatter| && CountTrue(scatter[offset..]) == left
    requires match scatterBitmap
             case None => scatter == Repeat(true, |scatter|)
             case Some(bitmap) =>
               && bitmap.size == |scatter| <= bitmap.bits.Length && scatter == bitmap.bits[..bitmap.size]
    ensures offset <= endOffset <= |scatter| && CountTrue(scatter[offset..endOffset]) == rowsToRead
    ensures rowsToRead == left ==> endOffset == |scatter|
    ensures scatterBitmap.None? ==> scatter[offset..endOffset] == Repeat(true, rowsToRead)
    ensures CountTrue(scatter[endOffset..]) == left - rowsToRead
  {
    hide CountTrue, Rank;
    match scatterBitmap {
      case None =>
        RepeatPart(|scatter|, offset, |scatter|);
        assert scatter[offset..|scatter|] == scatter[offset..];
        endOffset := offset + rowsToRead;
        RepeatPart(|scatter|, offset, endOffset);
      case Some(bitmap) =>
        endOffset := BitScan.FindSetBit(bitmap.bits, offset, bitmap.size, rowsToRead + 1);
        BitmapSlice(bitmap, scatter, offset, bitmap.size);
        BitmapSlice(bitmap, scatter, offset, endOffset);
        assert scatter[offset..|scatter|] == scatter[offset..];
        if rowsToRead == left { assert scatter[offset..endOffset] == scatter[offset..]; }
    }
    RankConcat(scatter[offset..endOffset], scatter[endOffset..], 0);
    assert scatter[offset..endOffset] + scatter[endOffset..] == scatter[offset..];
  }

  lemma RestFits(
      scatterBitmap: Option<Bitmap>, left: nat, read: nat, output: array<Value>, nulls: array?<bool>, offset: nat,
      endOffset: nat, scatter: seq<bool>)
    requires TailFits(scatterBitmap, left, output, nulls, offset, scatter)
    requires read <= left && offset <= endOffset <= |scatter| && CountTrue(scatter[offset..endOffset]) == read
    ensures TailFits(scatterBitmap, left - read, output, nulls, endOffset, scatter)
  {
    hide CountTrue, Rank;
    RankConcat(scatter[offset..endOffset], scatter[endOffset..], 0);
    assert scatter[offset..endOffset] + scatter[endOffset..] == scatter[offset..];
  }

  /** Rows without nulls stay without nulls in every part. */
  lemma NoNullsInPart(present: seq<bool>, from: nat, mid: nat, to: nat)
    requires from <= mid <= to <= |present|
    ensures CountTrue(present[from..to]) == to - from ==>
      CountTrue(present[from..mid]) == mid - from && CountTrue(present[mid..to]) == to - mid
  {
    hide CountTrue, Rank;
    RankOfSlice(present, from, to);
    RankOfSlice(present, from, mid);
    RankOfSlice(present, mid, to);
    RankMono(present, from, mid);
    RankMono(present, mid, to);
  }

  /** A chunk's rows fit the positions up to where they end. */
  lemma ChunkFits(
      scatterBitmap: Option<Bitmap>, left: nat, read: nat, output: array<Value>, nulls: array?<bool>, offset: nat,
      endOffset: nat, scatter: seq<bool>)
    requires TailFits(scatterBitmap, left, output, nulls, offset, scatter)
    requires read <= left && offset <= endOffset <= |scatter| && CountTrue(scatter[offset..endOffset]) == read
    requires scatterBitmap.None? ==> scatter[offset..endOffset] == Repeat(true, read)
    ensures
      var local := if scatterBitmap.None? then None else Some(Bitmap(scatterBitmap.value.bits, endOffset));
      && ScatterFits(local, read, output, nulls, offset)
      && Positions(local, read, offset) == scatter[offset..endOffset]
  {
    hide CountTrue, Rank, RoundUp8, Repeat;
    RoundUpMono(endOffset, |scatter|);
    if scatterBitmap.Some? { BitmapSlice(scatterBitmap.value, scatter, offset, endOffset); }
  }

  lemma RoundUpMono(m: nat, n: nat)
    requires m <= n
    ensures m <= RoundUp8(m) <= RoundUp8(n)
  {
  }

  lemma BitmapSlice(bitmap: Bitmap, scatter: seq<bool>, i: nat, j: nat)
    requires bitmap.size <= bitmap.bits.Length && scatter == bitmap.bits[..bitmap.size] && i <= j <= |scatter|
    ensures bitmap.bits[i..j] == scatter[i..j]
  {
    forall k | i <= k < j ensures bitmap.bits[k] == scatter[k] { }
  }

  lemma ScatteredJoin(
      scatter: seq<bool>, offset: nat, endOffset: nat, p1: seq<bool>, p2: seq<bool>, r1: seq<Value>, r2: seq<Value>,
      before: seq<Value>, mid: seq<Value>, after: seq<Value>)
    requires offset <= endOffset <= |scatter|
    requires Scattered(scatter[..offset], p1, r1, 0, before, mid)
    requires Scattered(scatter[offset..endOffset], p2, r2, offset, mid, after)
    ensures Scattered(scatter[..endOffset], p1 + p2, r1 + r2, 0, before, after)
  {
    hide CountTrue, Rank, Placed;
    var s1, s2 := scatter[..offset], scatter[offset..endOffset];
    assert scatter[..endOffset] == s1 + s2;
    PlacedJoin(mid, after, s1, s2, p1, p2, r1, r2);
    RankConcat(s1, s2, 0);
  }

  lemma JoinSlices(present: seq<bool>, rows: seq<Value>, a: nat, b: nat, c: nat)
    requires a <= b <= c <= |present| == |rows|
    ensures present[a..c] == present[a..b] + present[b..c] && rows[a..c] == rows[a..b] + rows[b..c]
  {
  }

  lemma NothingRead(scatter: seq<bool>, output: seq<Value>)
    ensures Scattered(scatter[..0], [], [], 0, output, output) && CountTrue([]) == 0
    ensures scatter[0..] == scatter
  {
  }

  lemma NothingToRead(scatter: seq<bool>, output: seq<Value>)
    requires CountTrue(scatter) == 0 && |scatter| <= |output|
    ensures Scattered(scatter, [], [], 0, output, output)
  {
    forall k | 0 <= k < |scatter| ensures !scatter[k] {
      if scatter[k] { RankBound(scatter, k); }
    }
  }

  lemma NoRowsNulls(scatter: seq<bool>, before: seq<bool>, after: seq<bool>)
    requires CountTrue(scatter) == 0 && RoundUp8(|scatter|) <= |before| == |after|
    requires forall i :: 0 <= i < |before| ==> after[i] == (before[i] && !(0 <= i < RoundUp8(|scatter|)))
    ensures NullsExact(scatter, [], 0, before, after)
  {
    hide CountTrue, Rank;
    RankAll([]);
    forall k | 0 <= k < |scatter| ensures after[k] == Taken(scatter, [])[k] {
      TakenAt(scatter, [], k);
      if scatter[k] { RankBound(scatter, k); }
    }
  }

  lemma NullsDone(scatter: seq<bool>, present: seq<bool>, before: seq<bool>, now: seq<bool>, hasNulls: bool)
    requires NullsSoFar(scatter, present, |scatter|, before, now, hasNulls)
    ensures NullsExact(scatter, present, 0, before, now)
  {
    hide CountTrue, Rank, Taken;
    assert scatter[..|scatter|] == scatter;
    if hasNulls { assert now[0..0 + |scatter|] == now[..|scatter|]; }
  }

  // ----- the decoder

  class ChunkedStreamDecoder {
    const unpack: Unpacker
    const chunks: seq<seq<Byte>>
    ghost const rows: seq<Value>
    ghost const present: seq<bool>
    var nextChunk: nat
    var encoding: Option<Encoding>
    var remaining: nat
    ghost var at: nat
    ghost var repr: set<object>

    constructor (unpack: Unpacker, chunks: seq<seq<Byte>>)
      requires WellFormed(unpack, chunks)
      ensures Valid() && fresh(repr) && at == 0
      ensures rows == StreamRows(unpack, chunks) && present == PresentRows(unpack, chunks)
    {
      this.unpack := unpack;
      this.chunks := chunks;
      rows := StreamRows(unpack, chunks);
      present := PresentRows(unpack, chunks);
      nextChunk := 0;
      encoding := None;
      remaining := 0;
      at := 0;
      repr := {this};
    }

    /** The rows left in the current chunk are the next ones of the stream. */
    ghost predicate Valid()
      reads this, repr
    {
      && this in repr && WellFormed(unpack, chunks) && nextChunk <= |chunks|
      && rows == StreamRows(unpack, chunks) && present == PresentRows(unpack, chunks)
      && at + remaining == |StreamRows(unpack, chunks[..nextChunk])|
      && (remaining > 0 ==> encoding.Some? && nextChunk > 0 && Loaded(encoding.value, nextChunk - 1, remaining))
    }

    ghost predicate Loaded(e: Encoding, k: nat, left: nat)
      requires k < |chunks| && Denote(unpack, chunks[k]).Some?
      reads this, repr
    {
      && e.Repr() <= repr && this !in e.Repr() && e.Valid() && e.At() + left == |e.Rows()|
      && e.Rows() == Denote(unpack, chunks[k]).value.values && e.Present() == Denote(unpack, chunks[k]).value.present
    }

    method EnsureLoaded()
      requires Valid() && at < |rows|
      modifies this
      ensures Valid() && remaining > 0 && at == old(at)
      ensures fresh(repr - old(repr))
    {
      hide Denote, StreamRows, PresentRows, Encoding.Valid, Encoding.At, Encoding.Rows, Encoding.Present;
      if remaining == 0 {
        assert chunks[..|chunks|] == chunks;
        ChunkRows(unpack, chunks, nextChunk);
        var e := Decode(unpack, chunks[nextChunk]);
        e.CountsRows();
        encoding := Some(e);
        nextChunk := nextChunk + 1;
        remaining := e.RowCount();
        repr := repr + e.Repr();
      }
    }

    /** The next rows of the stream are those of the current chunk. */
    lemma InChunk(n: nat)
      requires Valid() && remaining > 0 && n <= remaining
      ensures at + n <= |rows| == |present| && |encoding.value.Rows()| == |encoding.value.Present()|
      ensures rows[at..at + n] == encoding.value.Rows()[encoding.value.At()..encoding.value.At() + n]
      ensures present[at..at + n] == encoding.value.Present()[encoding.value.At()..encoding.value.At() + n]
    {
      hide Denote, StreamRows, PresentRows, Encoding.Valid, Encoding.At, Encoding.Rows, Encoding.Present, Encoding.Repr;
      var e, k := encoding.value, nextChunk - 1;
      ChunkRows(unpack, chunks, k);
      ColumnLengths(unpack, chunks[k]);
      RowsLengths(unpack, chunks);
      RowsLengths(unpack, chunks[..k]);
      var before, whole := StreamRows(unpack, chunks[..k]), StreamRows(unpack, chunks[..k + 1]);
      assert at == |before| + e.At();
      assert whole[at..at + n] == e.Rows()[e.At()..e.At() + n];
      assert rows[at..at + n] == whole[at..at + n];
      var beforeP, wholeP := PresentRows(unpack, chunks[..k]), PresentRows(unpack, chunks[..k + 1]);
      assert wholeP[at..at + n] == e.Present()[e.At()..e.At() + n];
      assert present[at..at + n] == wholeP[at..at + n];
    }

    /** Reads rows of the loaded chunk. */
    method ReadRows(n: nat, output: array<Value>, nulls: array?<bool>, scatterBitmap: Option<Bitmap>, offset: nat)
      returns (nonNullCount: nat)
      requires Valid() && 0 < n <= remaining && at + n <= |rows| == |present|
      requires ScatterFits(scatterBitmap, n, output, nulls, offset)
      requires nulls == null ==> scatterBitmap.None? && CountTrue(present[at..at + n]) == n
      requires output !in repr && nulls !in repr && (scatterBitmap.Some? ==> scatterBitmap.value.bits !in repr)
      modifies `remaining, `at, repr - {this}, output, nulls
      ensures Valid() && at == old(at) + n
      ensures Scattered(old(Positions(scatterBitmap, n, offset)), present[old(at)..at], rows[old(at)..at], offset,
        old(output[..]), output[..])
      ensures nonNullCount == CountTrue(present[old(at)..at])
      ensures nulls != null ==>
        NullsExact(old(Positions(scatterBitmap, n, offset)), present[old(at)..at], offset, old(nulls[..]), nulls[..])
    {
      hide Denote, StreamRows, PresentRows, Encoding.Valid, Encoding.At, Encoding.Rows, Encoding.Present, Encoding.Repr;
      hide CountTrue, Rank, Scattered, NullsExact, Positions, ScatterFits;
      InChunk(n);
      nonNullCount := encoding.value.MaterializeNullable(n, output, nulls, scatterBitmap, offset);
      remaining := remaining - n;
      at := at + n;
    }

    /** Reads what is left of `left` rows from the current chunk, to the positions from `offset` on. */
    method ReadChunk(
        left: nat, output: array<Value>, nulls: array?<bool>, scatterBitmap: Option<Bitmap>, offset: nat,
        ghost scatter: seq<bool>)
      returns (rowsToRead: nat, endOffset: nat, chunkNonNullCount: nat)
      requires Valid() && 0 < left && at + left <= |rows| == |present|
      requires TailFits(scatterBitmap, left, output, nulls, offset, scatter)
      requires nulls == null ==> scatterBitmap.None? && CountTrue(present[at..at + left]) == left
      requires output !in repr && nulls !in repr && (scatterBitmap.Some? ==> scatterBitmap.value.bits !in repr)
      modifies this, repr, output, nulls
      ensures Valid() && fresh(repr - old(repr)) && 0 < rowsToRead <= left && at == old(at) + rowsToRead
      ensures offset <= endOffset <= |scatter| && CountTrue(scatter[offset..endOffset]) == rowsToRead
      ensures rowsToRead == left ==> endOffset == |scatter|
      ensures Scattered(scatter[offset..endOffset], present[old(at)..at], rows[old(at)..at], offset,
        old(output[..]), output[..])
      ensures chunkNonNullCount == CountTrue(present[old(at)..at])
      ensures nulls != null ==>
        NullsExact(scatter[offset..endOffset], present[old(at)..at], offset, old(nulls[..]), nulls[..])
    {
      hide Denote, StreamRows, PresentRows, Encoding.Valid, Encoding.At, Encoding.Rows, Encoding.Present;
      hide CountTrue, Rank, Scattered, NullsExact, ScatterFits, Positions;
      EnsureLoaded();
      rowsToRead := if left < remaining then left else remaining;
      NoNullsInPart(present, at, at + rowsToRead, at + left);
      endOffset := ChunkEnd(scatterBitmap, left, rowsToRead, offset, scatter);
      var local := if scatterBitmap.None? then None else Some(Bitmap(scatterBitmap.value.bits, endOffset));
      ChunkFits(scatterBitmap, left, rowsToRead, output, nulls, offset, endOffset, scatter);
      chunkNonNullCount := ReadRows(rowsToRead, output, nulls, local, offset);
    }

    method Next(count: nat, output: array<Value>, nulls: array?<bool>, scatterBitmap: Option<Bitmap>)
      returns (nonNullCount: nat)
      requires Valid() && at + count <= |rows| == |present|
      requires ScatterFits(scatterBitmap, count, output, nulls, 0)
      requires nulls == null ==> scatterBitmap.None? && CountTrue(present[at..at + count]) == count
      requires output !in repr && nulls !in repr && (scatterBitmap.Some? ==> scatterBitmap.value.bits !in repr)
      modifies this, repr, output, nulls
      ensures Valid() && fresh(repr - old(repr)) && at == old(at) + count
      ensures Scattered(old(Positions(scatterBitmap, count, 0)), present[old(at)..at], rows[old(at)..at], 0,
        old(output[..]), output[..])
      ensures nonNullCount == CountTrue(present[old(at)..at])
      ensures nulls != null ==>
        NullsExact(old(Positions(scatterBitmap, count, 0)), present[old(at)..at], 0, old(nulls[..]), nulls[..])
    {
      hide Valid, CountTrue, Rank, Scattered, NullsExact, NullsSoFar, TailFits;
      ghost var scatter, start := Positions(scatterBitmap, count, 0), at;
      NothingRead(scatter, output[..]);
      assert present[start..at] == [] && rows[start..at] == [];
      if count == 0 {
        if nulls != null && scatterBitmap.Some? {
          ClearRange(nulls, 0, RoundUp8(scatterBitmap.value.size));
        }
        NothingToRead(scatter, output[..]);
        if nulls != null { NoRowsNulls(scatter, old(nulls[..]), nulls[..]); }
        return 0;
      }
      nonNullCount := 0;
      var left: nat, offset: nat, hasNulls := count, 0, false;
      if nulls != null { NoNullsYet(scatter, nulls[..]); }
      AllFits(scatterBitmap, count, output, nulls, scatter);
      while left > 0
        invariant Valid() && fresh(repr - old(repr)) && left <= count && at + left == start + count
        invariant start <= at <= |rows| == |present|
        invariant output !in repr && nulls !in repr && (scatterBitmap.Some? ==> scatterBitmap.value.bits !in repr)
        invariant TailFits(scatterBitmap, left, output, nulls, offset, scatter)
        invariant offset <= |scatter| && (left == 0 ==> offset == |scatter|)
        invariant nulls == null ==> scatterBitmap.None? && CountTrue(present[at..at + left]) == left
        invariant nonNullCount == CountTrue(present[start..at])
        invariant Scattered(scatter[..offset], present[start..at], rows[start..at], 0, old(output[..]), output[..])
        invariant nulls != null ==>
          NullsSoFar(scatter, present[start..at], offset, old(nulls[..]), nulls[..], hasNulls)
        decreases left
      {
        ghost var from, outputBefore := at, output[..];
        ghost var nullsBefore := if nulls == null then [] else nulls[..];
        var rowsToRead, endOffset, chunkNonNullCount := ReadChunk(left, output, nulls, scatterBitmap, offset, scatter);
        ghost var p1, p2 := present[start..from], present[from..at];
        JoinSlices(present, rows, start, from, at);
        RankConcat(p1, p2, |p1|);
        ScatteredJoin(scatter, offset, endOffset, p1, p2, rows[start..from], rows[from..at],
          old(output[..]), outputBefore, output[..]);
        if nulls != null {
          hasNulls := RepairNulls(nulls, offset, endOffset, hasNulls, chunkNonNullCount,
            scatter, p1, p2, old(nulls[..]), nullsBefore);
        }
        RestFits(scatterBitmap, left, rowsToRead, output, nulls, offset, endOffset, scatter);
        NoNullsInPart(present, from, at, from + left);
        offset := endOffset;
        left := left - rowsToRead;
        nonNullCount := nonNullCount + chunkNonNullCount;
      }
      assert scatter[..|scatter|] == scatter;
      if nulls != null { NullsDone(scatter, present[start..at], old(nulls[..]), nulls[..], hasNulls); }
    }

    method Skip(count: nat)
      requires Valid() && at + count <= |rows|
      modifies this, repr
      ensures Valid() && at == old(at) + count
      ensures fresh(repr - old(repr))
    {
      hide Denote, StreamRows, PresentRows, Encoding.Valid, Encoding.At, Encoding.Rows, Encoding.Present;
      var left := count;
      while left > 0
        invariant Valid() && left >= 0 && at + left == old(at) + count
        invariant fresh(repr - old(repr))
      {
        EnsureLoaded();
        var toSkip := if left < remaining then left else remaining;
        encoding.value.Skip(toSkip);
        left := left - toSkip;
        remaining := remaining - toSkip;
        at := at + toSkip;
      }
    }

    method Reset()
      requires Valid()
      modifies this
      ensures Valid() && at == 0 && repr == old(repr)
    {
      nextChunk, remaining, at := 0, 0, 0;
    }
  }
}
