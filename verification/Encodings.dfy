/**
  The encodings built from other encodings, and the interface all of them share.  A decoded stream is
  a tree of cursors: reading from one moves the cursors of its children.  `Rows` is the sequence the
  cursor runs over and `At` its position, so every `Materialize` is a slice and every `Skip` a step.
 */
module Encodings {
  import opened BitMath
  import opened Sequences
  import opened Format
  import opened LeafEncodings
  import opened Wrappers
  import opened Scatter

  /** One of the encoding classes; the member functions dispatch to it. */
  datatype Encoding =
    | Constant(constant: ConstantEncoding)
    | Trivial(trivial: TrivialEncoding)
    | TrivialBool(bools: TrivialBoolEncoding)
    | TrivialString(strings: TrivialStringEncoding)
    | FixedBitWidth(fixed: FixedBitWidthEncoding)
    | Varint(varint: VarintEncoding)
    | SparseBool(sparse: SparseBoolEncoding)
    | Rle(rle: RleEncoding)
    | Dictionary(dictionary: DictionaryEncoding)
    | MainlyConstant(mainly: MainlyConstantEncoding)
    | Nullable(nullable: NullableEncoding)
  {
    /** All rows of the stream. */
    ghost function Rows(): seq<Value>
    {
      match this
      case Constant(e) => e.rows case Trivial(e) => e.rows case TrivialBool(e) => e.rows
      case TrivialString(e) => e.rows case FixedBitWidth(e) => e.rows case Varint(e) => e.rows
      case SparseBool(e) => e.rows case Rle(e) => e.rows case Dictionary(e) => e.rows
      case MainlyConstant(e) => e.rows case Nullable(e) => e.rows
    }

    /** False exactly at the null rows. */
    ghost function Present(): seq<bool>
    {
      if Nullable? then nullable.present else Repeat(true, |Rows()|)
    }

    ghost function Repr(): set<object>
    {
      match this
      case Constant(e) => {e} case Trivial(e) => {e} case TrivialBool(e) => {e}
      case TrivialString(e) => {e} + e.repr case FixedBitWidth(e) => {e, e.packed.buffer} case Varint(e) => {e}
      case SparseBool(e) => {e} + e.repr case Rle(e) => {e} + e.repr case Dictionary(e) => {e} + e.repr
      case MainlyConstant(e) => {e} + e.repr case Nullable(e) => {e} + e.repr
    }

    ghost function Height(): nat
    {
      match this
      case TrivialString(e) => e.height case SparseBool(e) => e.height case Rle(e) => e.height
      case Dictionary(e) => e.height case MainlyConstant(e) => e.height case Nullable(e) => e.height
      case _ => 0
    }

    ghost predicate Valid()
      reads Repr()
      decreases Height(), 9
    {
      match this
      case Constant(e) => e.Valid() case Trivial(e) => e.Valid() case TrivialBool(e) => e.Valid()
      case TrivialString(e) => e.Valid() case FixedBitWidth(e) => e.Valid() case Varint(e) => e.Valid()
      case SparseBool(e) => e.Valid() case Rle(e) => e.Valid()
      case Dictionary(e) => e.Valid() case MainlyConstant(e) => e.Valid()
      case Nullable(e) => e.Valid()
    }

    /** `rowCount()` */
    function RowCount(): nat
    {
      match this
      case Constant(e) => e.rowCount case Trivial(e) => e.rowCount case TrivialBool(e) => e.rowCount
      case TrivialString(e) => e.rowCount case FixedBitWidth(e) => e.rowCount case Varint(e) => e.rowCount
      case SparseBool(e) => e.rowCount case Rle(e) => e.rowCount case Dictionary(e) => e.rowCount
      case MainlyConstant(e) => e.rowCount case Nullable(e) => e.rowCount
    }

    /** How many rows have been read or skipped. */
    ghost function At(): nat
      requires Valid()
      reads Repr()
      decreases Height(), 10
    {
      match this
      case Constant(e) => e.at case Trivial(e) => e.at case TrivialBool(e) => e.at
      case TrivialString(e) => e.at case FixedBitWidth(e) => e.at case Varint(e) => e.at
      case SparseBool(e) => e.at case Rle(e) => e.at case Dictionary(e) => e.at
      case MainlyConstant(e) => e.at case Nullable(e) => e.at
    }

    lemma CountsRows()
      requires Valid()
      ensures |Rows()| == |Present()| == RowCount() && At() <= |Rows()|
    {
    }

    method Reset()
      requires Valid()
      modifies Repr()
      ensures Valid() && At() == 0
      decreases Height(), 9
    {
      match this {
        case Constant(e) => e.Reset();
        case Trivial(e) => e.Reset();
        case TrivialBool(e) => e.Reset();
        case TrivialString(e) => e.Reset();
        case FixedBitWidth(e) => e.Reset();
        case Varint(e) => e.Reset();
        case SparseBool(e) => e.Reset();
        case Rle(e) => e.Reset();
        case Dictionary(e) => e.Reset();
        case MainlyConstant(e) => e.Reset();
        case Nullable(e) => e.Reset();
      }
    }

    method Skip(n: nat)
      requires Valid() && At() + n <= |Rows()|
      modifies Repr()
      ensures Valid() && At() == old(At()) + n
      decreases Height(), 9
    {
      match this {
        case Constant(e) => e.Skip(n);
        case Trivial(e) => e.Skip(n);
        case TrivialBool(e) => e.Skip(n);
        case TrivialString(e) => e.Skip(n);
        case FixedBitWidth(e) => e.Skip(n);
        case Varint(e) => e.Skip(n);
        case SparseBool(e) => e.Skip(n);
        case Rle(e) => e.Skip(n);
        case Dictionary(e) => e.Skip(n);
        case MainlyConstant(e) => e.Skip(n);
        case Nullable(e) => e.Skip(n);
      }
    }

    method Materialize(n: nat) returns (output: seq<Value>)
      requires Valid() && At() + n <= |Rows()|
      modifies Repr()
      ensures Valid() && At() == old(At()) + n && |output| == n
      ensures output == Rows()[old(At())..At()]
      decreases Height(), 9
    {
      match this {
        case Constant(e) => output := e.Materialize(n);
        case Trivial(e) => output := e.Materialize(n);
        case TrivialBool(e) => output := e.Materialize(n);
        case TrivialString(e) => output := e.Materialize(n);
        case FixedBitWidth(e) => output := e.Materialize(n);
        case Varint(e) => output := e.Materialize(n);
        case SparseBool(e) => output := e.Materialize(n);
        case Rle(e) => output := e.Materialize(n);
        case Dictionary(e) => output := e.Materialize(n);
        case MainlyConstant(e) => output := e.Materialize(n);
        case Nullable(e) => output := e.Materialize(n);
      }
    }

    /**
      Reads `n` rows and scatters them over the output positions from `offset` on.  The bitmap is
      written only when some position ends up without a value, and then it is exact.
     */
    method MaterializeNullable(
        n: nat, buffer: array<Value>, nulls: array?<bool>, scatterBitmap: Option<Bitmap>, offset: nat)
      returns (nonNullCount: nat)
      requires Valid() && At() + n <= |Rows()| == |Present()|
      requires ScatterFits(scatterBitmap, n, buffer, nulls, offset)
      requires nulls == null ==> scatterBitmap.None? && CountTrue(Present()[At()..At() + n]) == n
      requires buffer !in Repr() && nulls !in Repr() && (scatterBitmap.Some? ==> scatterBitmap.value.bits !in Repr())
      modifies Repr(), buffer, nulls
      ensures Valid() && At() == old(At()) + n
      ensures Scattered(old(Positions(scatterBitmap, n, offset)), Present()[old(At())..At()], Rows()[old(At())..At()],
        offset, old(buffer[..]), buffer[..])
      ensures nonNullCount == CountTrue(Present()[old(At())..At()])
      ensures nulls != null ==>
        NullsExact(old(Positions(scatterBitmap, n, offset)), Present()[old(At())..At()], offset,
          old(nulls[..]), nulls[..])
    {
      hide Encoding.Valid, Encoding.At, Encoding.Rows, Scattered, NullsExact, CountTrue, Positions;
      ghost var from := At();
      CountRepeat(n);
      if Nullable? {
        var values, present := ReadPresent(n);
        nonNullCount := |values|;
        ScatterNonNulls(values, present, buffer, nulls, scatterBitmap, offset, nullable.default);
      } else {
        assert Present()[from..from + n] == Repeat(true, n);
        var rows := Materialize(n);
        nonNullCount := n;
        ScatterRows(rows, buffer, nulls, scatterBitmap, offset);
      }
    }

    method ReadPresent(n: nat) returns (values: seq<Value>, flags: seq<bool>)
      requires Nullable? && Valid() && At() + n <= |Rows()| == |Present()|
      modifies Repr()
      ensures Valid() && At() == old(At()) + n
      ensures flags == Present()[old(At())..At()] && |values| == CountTrue(flags)
      ensures Rows()[old(At())..At()] == Filled(flags, values, nullable.default)
    {
      values, flags := nullable.ReadPresent(n);
    }
  }

  // ----- Trivial, for strings

  class TrivialStringEncoding {
    const blob: seq<Byte>
    const lengths: Encoding
    const rowCount: nat
    ghost const rows: seq<Value>
    ghost const repr: set<object>
    ghost const height: nat
    var row: nat
    var pos: nat
    ghost var at: nat

    constructor (blob: seq<Byte>, lengths: Encoding)
      requires lengths.Valid() && lengths.At() == 0
      requires Sum(Nats(lengths.Rows())) <= |blob| < 0x1_0000_0000
      ensures repr == {this} + lengths.Repr() && Valid() && at == 0
      ensures rows == Cut(blob, Nats(lengths.Rows()))
    {
      hide Encoding.Valid, Encoding.At, Cut, Nats;
      this.blob := blob;
      this.lengths := lengths;
      lengths.CountsRows();
      rowCount := lengths.RowCount();
      rows := Cut(blob, Nats(lengths.Rows()));
      repr := {this} + lengths.Repr();
      height := lengths.Height() + 1;
      row, pos, at := 0, 0, 0;
      new;
      SumAll(Nats(lengths.Rows()));
    }

    ghost predicate Valid()
      reads this, repr
      decreases height, 5
    {
      && this in repr && lengths.Repr() <= repr && this !in lengths.Repr() && lengths.Height() < height
      && lengths.Valid() && Sum(Nats(lengths.Rows())) <= |blob| < 0x1_0000_0000
      && rows == Cut(blob, Nats(lengths.Rows()))
      && row == at == lengths.At() <= |rows| == rowCount == lengths.RowCount() && pos == Sum(Nats(lengths.Rows())[..at])
    }

    method Reset()
      requires Valid()
      modifies repr
      ensures Valid() && at == 0
      decreases height, 5
    {
      hide Encoding.Valid, Encoding.At;
      row, pos, at := 0, 0, 0;
      lengths.Reset();
      SumAll(Nats(lengths.Rows()));
    }

    method Skip(n: nat)
      requires Valid() && at + n <= |rows|
      modifies repr
      ensures Valid() && at == old(at) + n
      decreases height, 5
    {
      hide Encoding.Valid, Encoding.At, Encoding.Repr, Cut, Nats;
      var buffer := lengths.Materialize(n);
      ghost var all := Nats(lengths.Rows());
      NatsSlice(lengths.Rows(), at, at + n);
      SumOfSlice(all, at, at + n);
      var total := Accumulate(buffer);
      row := row + n;
      pos := pos + total;
      at := at + n;
    }

    method Materialize(n: nat) returns (output: seq<Value>)
      requires Valid() && at + n <= |rows|
      modifies repr
      ensures Valid() && at == old(at) + n && output == rows[old(at)..at]
      decreases height, 5
    {
      hide Encoding.Valid, Encoding.At, Encoding.Repr, Cut, Nats;
      ghost var all := Nats(lengths.Rows());
      var buffer := lengths.Materialize(n);
      NatsSlice(lengths.Rows(), at, at + n);
      output, pos := Strings(blob, pos, buffer, all, at);
      row := row + n;
      at := at + n;
    }
  }

  method Strings(blob: seq<Byte>, pos: nat, lengths: seq<Value>, ghost all: seq<nat>, ghost from: nat)
    returns (output: seq<Value>, end: nat)
    requires Sum(all) <= |blob| && from + |lengths| <= |all| && Nats(lengths) == all[from..from + |lengths|]
    requires pos == Sum(all[..from])
    ensures output == Cut(blob, all)[from..from + |lengths|] && end == Sum(all[..from + |lengths|])
  {
    hide Cut;
    output := [];
    end := pos;
    for i := 0 to |lengths|
      invariant end == Sum(all[..from + i]) && output == Cut(blob, all)[from..from + i]
    {
      var length := Nat(lengths[i]);
      assert length == Nats(lengths)[i] == all[from + i];
      SumNext(all, from + i);
      CutAt(blob, all, from + i);
      output := output + [Str(blob[end..end + length])];
      end := end + length;
    }
  }

  /** `std::accumulate` in 32-bit arithmetic. */
  method Accumulate(lengths: seq<Value>) returns (total: nat)
    requires Sum(Nats(lengths)) < 0x1_0000_0000
    ensures total == Sum(Nats(lengths))
  {
    total := 0;
    SumAll(Nats(lengths));
    for i := 0 to |lengths|
      invariant total == Sum(Nats(lengths)[..i])
    {
      SumNext(Nats(lengths), i);
      total := (total + Nat(lengths[i])) % 0x1_0000_0000;
    }
  }

  lemma ReprAllocated(child: Encoding)
    ensures allocated(child.Repr())
  {
  }

  // ----- read-ahead

  const BUFFER_SIZE := 32

  /** Serves the rows of a stream one at a time out of a buffer of 32. */
  class BufferedEncoding {
    const encoding: Encoding
    ghost const repr: set<object>
    ghost const height: nat
    var bufferPosition: nat
    var encodingPosition: nat
    var buffer: seq<Value>

    constructor (encoding: Encoding)
      requires encoding.Valid() && encoding.At() == 0
      ensures this.encoding == encoding && repr == {this} + encoding.Repr() && this !in encoding.Repr()
      ensures height == encoding.Height() + 1
      ensures Valid() && encodingPosition == 0
    {
      this.encoding := encoding;
      repr := {this} + encoding.Repr();
      height := encoding.Height() + 1;
      bufferPosition := BUFFER_SIZE;
      encodingPosition := 0;
      buffer := Repeat(Num(0), BUFFER_SIZE);
    }

    /** Once the stream is exhausted one more fetch is allowed; it yields arbitrary contents. */
    ghost predicate Valid()
      reads this, repr
      decreases height, 5
    {
      && this in repr && encoding.Repr() <= repr && this !in encoding.Repr() && encoding.Height() < height
      && encoding.Valid() && |buffer| == BUFFER_SIZE && bufferPosition <= BUFFER_SIZE
      && encodingPosition <= |encoding.Rows()| + 1
      && (encodingPosition <= |encoding.Rows()| ==>
        Ahead(buffer, bufferPosition, encoding.Rows(), encodingPosition, encoding.At()))
    }

    method NextValue() returns (value: Value)
      requires Valid() && encodingPosition <= |encoding.Rows()|
      modifies repr
      ensures Valid() && encodingPosition == old(encodingPosition) + 1
      ensures old(encodingPosition) < |encoding.Rows()| ==> value == encoding.Rows()[old(encodingPosition)]
      decreases height, 5
    {
      hide Encoding.Valid, Encoding.At, Encoding.Repr, Encoding.Rows, Ahead;
      if bufferPosition == BUFFER_SIZE { Refill(); }
      Serve(buffer, bufferPosition, encoding.Rows(), encodingPosition, encoding.At());
      encodingPosition := encodingPosition + 1;
      value := buffer[bufferPosition];
      bufferPosition := bufferPosition + 1;
    }

    method Refill()
      requires Valid() && encodingPosition <= |encoding.Rows()| && bufferPosition == BUFFER_SIZE
      modifies repr
      ensures Valid() && bufferPosition == 0 && encodingPosition == old(encodingPosition)
      decreases height, 3
    {
      hide Encoding.Valid, Encoding.Repr, Encoding.Rows, Encoding.At;
      encoding.CountsRows();
      var left := encoding.RowCount() - encodingPosition;
      var rows: nat := if left < BUFFER_SIZE then left else BUFFER_SIZE;
      var read := encoding.Materialize(rows);
      buffer := read + buffer[rows..];
      bufferPosition := 0;
    }

    method Reset()
      requires Valid()
      modifies repr
      ensures Valid() && encodingPosition == 0
      decreases height, 5
    {
      hide Encoding.Valid, Encoding.At, Encoding.Repr;
      bufferPosition := BUFFER_SIZE;
      encodingPosition := 0;
      encoding.Reset();
    }
  }

  /** The rows read from the stream but not yet served are the next ones in the buffer. */
  ghost predicate Ahead(buffer: seq<Value>, position: nat, rows: seq<Value>, served: nat, read: nat)
  {
    && served <= read <= |rows| && position + (read - served) <= |buffer|
    && buffer[position..position + (read - served)] == rows[served..read]
    && (position + (read - served) == |buffer| || read == |rows|)
  }

  lemma Serve(buffer: seq<Value>, position: nat, rows: seq<Value>, served: nat, read: nat)
    requires Ahead(buffer, position, rows, served, read) && position < |buffer|
    ensures served < |rows| ==> buffer[position] == rows[served] && Ahead(buffer, position + 1, rows, served + 1, read)
    ensures served == read ==> served == |rows|
  {
    if served < |rows| {
      assert buffer[position..position + (read - served)][0] == rows[served..read][0];
      assert buffer[position..position + (read - served)][1..] == rows[served..read][1..];
    }
  }

  // ----- SparseBool

  class SparseBoolEncoding {
    const sparseValue: bool
    const indices: BufferedEncoding
    const rowCount: nat
    ghost const rows: seq<Value>
    ghost const repr: set<object>
    ghost const height: nat
    var nextIndex: nat
    var row: nat
    ghost var at: nat

    constructor (sparseValue: bool, indices: BufferedEncoding, rowCount: nat)
      requires indices.Valid() && IndexList(Nats(indices.encoding.Rows()), rowCount)
      modifies indices.repr
      ensures repr == {this} + indices.repr && Valid() && at == 0
      ensures rows == Sparse(sparseValue, Nats(indices.encoding.Rows()), rowCount)
    {
      this.sparseValue := sparseValue;
      this.indices := indices;
      this.rowCount := rowCount;
      rows := Sparse(sparseValue, Nats(indices.encoding.Rows()), rowCount);
      repr := {this} + indices.repr;
      height := indices.height + 1;
      new;
      Reset();
    }

    ghost function Indices(): seq<nat>
    {
      Nats(indices.encoding.Rows())
    }

    ghost predicate Built()
    {
      && this in repr && indices in repr && indices.repr <= repr && this !in indices.repr && indices.height < height
      && IndexList(Indices(), rowCount) && |rows| == rowCount
      && rows == Sparse(sparseValue, Indices(), rowCount)
    }

    /** `nextIndex` is the first index not before the current row. */
    ghost predicate Valid()
      reads this, repr
      decreases height, 5
    {
      && Built() && indices.Valid() && row == at <= rowCount && 1 <= indices.encodingPosition <= |Indices()|
      && nextIndex == Indices()[indices.encodingPosition - 1] && row <= nextIndex
      && forall j :: 0 <= j < indices.encodingPosition - 1 ==> Indices()[j] < row
    }

    method Reset()
      requires Built() && indices.Valid()
      modifies repr
      ensures Valid() && at == 0
      decreases height, 5
    {
      hide Encoding.Valid, Encoding.Rows, Sparse, BufferedEncoding.Valid;
      row, at := 0, 0;
      indices.Reset();
      var index := indices.NextValue();
      nextIndex := Nat(index);
    }

    method Skip(n: nat)
      requires Valid() && at + n <= |rows|
      modifies repr
      ensures Valid() && at == old(at) + n
      decreases height, 5
    {
      hide Encoding.Valid, Encoding.Rows, Sparse, BufferedEncoding.Valid;
      var end := row + n;
      while nextIndex < end
        invariant Passing(end)
        decreases |Indices()| - indices.encodingPosition
      {
        NextIndex(end);
      }
      row, at := end, end;
    }

    /** The state inside the loops: the indices fetched before `nextIndex` are before `end`. */
    ghost predicate Passing(end: nat)
      reads this, repr
    {
      && Built() && indices.Valid() && row == at <= end <= rowCount && 1 <= indices.encodingPosition <= |Indices()|
      && nextIndex == Indices()[indices.encodingPosition - 1] && row <= nextIndex
      && forall j :: 0 <= j < indices.encodingPosition - 1 ==> Indices()[j] < end
    }

    method NextIndex(ghost end: nat)
      requires Passing(end) && nextIndex < end
      modifies repr
      ensures Passing(end) && row == old(row)
      ensures indices.encodingPosition == old(indices.encodingPosition) + 1
      decreases height, 4
    {
      hide Encoding.Valid, Encoding.Rows, BufferedEncoding.Valid, Sparse;
      assert indices.encodingPosition - 1 != |Indices()| - 1;
      var index := indices.NextValue();
      nextIndex := Nat(index);
    }

    method Materialize(n: nat) returns (output: seq<Value>)
      requires Valid() && at + n <= |rows|
      modifies repr
      ensures Valid() && at == old(at) + n && output == rows[old(at)..at]
      decreases height, 5
    {
      hide Encoding.Valid, Encoding.Rows, BufferedEncoding.Valid, Marked, Sparse;
      var end := row + n;
      output := Repeat(Flag(!sparseValue), n);
      ghost var start := at;
      NoneMarked(output, start, Indices(), indices.encodingPosition - 1, sparseValue);
      while nextIndex < end
        invariant Passing(end) && row == start
        invariant |output| == n && Marked(output, start, Indices(), indices.encodingPosition - 1, sparseValue)
        decreases |Indices()| - indices.encodingPosition
      {
        MarkNext(output, start, Indices(), indices.encodingPosition - 1, sparseValue);
        output := output[nextIndex - row := Flag(sparseValue)];
        NextIndex(end);
      }
      AllMarked(output, start, Indices(), indices.encodingPosition - 1, sparseValue, rowCount);
      row, at := end, end;
    }
  }

  /** Rows from `start` on, with the first `fetched` indices taken into account. */
  ghost predicate Marked(output: seq<Value>, start: nat, indices: seq<nat>, fetched: nat, sparseValue: bool)
    requires fetched <= |indices|
  {
    forall j :: 0 <= j < |output| ==> output[j] == Flag((start + j in indices[..fetched]) == sparseValue)
  }

  lemma NoneMarked(output: seq<Value>, start: nat, indices: seq<nat>, fetched: nat, sparseValue: bool)
    requires fetched <= |indices| && output == Repeat(Flag(!sparseValue), |output|)
    requires forall j :: 0 <= j < fetched ==> indices[j] < start
    ensures Marked(output, start, indices, fetched, sparseValue)
  {
  }

  lemma MarkNext(output: seq<Value>, start: nat, indices: seq<nat>, fetched: nat, sparseValue: bool)
    requires fetched < |indices| && start <= indices[fetched] < start + |output|
    requires Marked(output, start, indices, fetched, sparseValue)
    ensures Marked(output[indices[fetched] - start := Flag(sparseValue)], start, indices, fetched + 1, sparseValue)
  {
    assert indices[..fetched + 1] == indices[..fetched] + [indices[fetched]];
  }

  lemma AllMarked(
      output: seq<Value>, start: nat, indices: seq<nat>, fetched: nat, sparseValue: bool, rowCount: nat)
    requires fetched < |indices| && Marked(output, start, indices, fetched, sparseValue)
    requires IndexList(indices, rowCount) && start + |output| <= rowCount && start + |output| <= indices[fetched]
    ensures output == Sparse(sparseValue, indices, rowCount)[start..start + |output|]
  {
    forall row | start <= row < start + |output| ensures (row in indices) == (row in indices[..fetched]) {
      if row in indices {
        var i :| 0 <= i < |indices| && indices[i] == row;
        assert i < fetched;
        assert indices[..fetched][i] == row;
      }
    }
  }

  // ----- RLE

  datatype RunValues = Stored(values: BufferedEncoding) | Alternate(initialValue: bool)
  {
    ghost function Repr(): set<object>
    {
      if Stored? then {values} + values.repr else {}
    }

    ghost function Values(runs: nat): seq<Value>
    {
      if Stored? then values.encoding.Rows() else Alternating(initialValue, runs)
    }
  }

  lemma AlternatingAt(initial: bool, runs: nat, k: nat)
    requires k < runs
    ensures Alternating(initial, runs)[k] == Flag(initial == (k % 2 == 0))
  {
  }

  class RleEncoding {
    const runLengths: BufferedEncoding
    const runValues: RunValues
    const rowCount: nat
    ghost const rows: seq<Value>
    ghost const repr: set<object>
    ghost const height: nat
    var copiesRemaining: nat
    var currentValue: Value
    var value: bool
    ghost var at: nat

    constructor (runLengths: BufferedEncoding, runValues: RunValues, rowCount: nat)
      requires runLengths.Valid() && Sum(Nats(runLengths.encoding.Rows())) == rowCount
      requires runValues.Stored? ==> runValues.values.Valid() && runLengths.repr !! runValues.values.repr
      requires |runValues.Values(|runLengths.encoding.Rows()|)| == |runLengths.encoding.Rows()|
      modifies runLengths.repr, runValues.Repr()
      ensures repr == {this} + runLengths.repr + runValues.Repr() && Valid() && at == 0
      ensures rows ==
        Expand(Nats(runLengths.encoding.Rows()), runValues.Values(|runLengths.encoding.Rows()|))
    {
      this.runLengths := runLengths;
      this.runValues := runValues;
      this.rowCount := rowCount;
      rows := Expand(Nats(runLengths.encoding.Rows()), runValues.Values(|runLengths.encoding.Rows()|));
      repr := {this} + runLengths.repr + runValues.Repr();
      height := runLengths.height + (if runValues.Stored? then runValues.values.height else 0) + 1;
      currentValue := Num(0);
      value := false;
      copiesRemaining := 0;
      new;
      Reset();
    }

    ghost function Lengths(): seq<nat>
    {
      Nats(runLengths.encoding.Rows())
    }

    ghost function Values(): seq<Value>
    {
      runValues.Values(|Lengths()|)
    }

    ghost predicate Built()
    {
      && this in repr && Owned(runLengths)
      && (runValues.Stored? ==> Owned(runValues.values) && runLengths.repr !! runValues.values.repr)
      && |Values()| == |Lengths()| && Sum(Lengths()) == rowCount == |rows| && rows == Expand(Lengths(), Values())
    }

    ghost predicate Owned(child: BufferedEncoding)
    {
      child in repr && child.repr <= repr && child in child.repr && this !in child.repr && child.height < height
    }

    /** `runs` runs have been fetched. */
    ghost predicate Fetched(runs: nat)
      reads this, repr
      requires Built()
    {
      && runLengths.encodingPosition == runs
      && match runValues
         case Stored(values) => values.encodingPosition == runs
         case Alternate(initial) => value == (initial == (runs % 2 == 0))
    }

    /** Inside a run, or, one fetch past the last run, at the end with nothing left to trust. */
    ghost predicate Positioned(runs: nat)
      reads this, repr
      requires Built()
    {
      && 1 <= runs <= |Lengths()| + 1 && Fetched(runs)
      && if runs > |Lengths()| then at == rowCount
         else
           && currentValue == Values()[runs - 1] && copiesRemaining <= Lengths()[runs - 1]
           && at + copiesRemaining == Sum(Lengths()[..runs]) <= rowCount
    }

    /** Where a fetch may happen. */
    ghost predicate BetweenRuns(runs: nat)
      reads this, repr
      requires Built()
    {
      runs <= |Lengths()| && Fetched(runs) && at == Sum(Lengths()[..runs])
    }

    ghost predicate Valid()
      reads this, repr
      decreases height, 5
    {
      && Built() && runLengths.Valid() && (runValues.Stored? ==> runValues.values.Valid())
      && Positioned(runLengths.encodingPosition)
    }

    method NextValue() returns (v: Value)
      requires Built()
      requires runValues.Stored? ==> runValues.values.Valid() && runValues.values.encodingPosition <= |Lengths()|
      modifies runValues.Repr(), `value
      ensures runValues.Stored? ==> runValues.values.Valid()
      ensures value == if runValues.Stored? then old(value) else !old(value)
      ensures runValues.Stored? ==>
        && runValues.values.encodingPosition == old(runValues.values.encodingPosition) + 1
        && (old(runValues.values.encodingPosition) < |Lengths()| ==>
          v == Values()[old(runValues.values.encodingPosition)])
      ensures runValues.Alternate? ==> v == Flag(old(value))
      decreases height, 3
    {
      hide Encoding.Valid, Encoding.Rows, Expand, Alternating, BufferedEncoding.Valid;
      match runValues {
        case Stored(values) =>
          v := values.NextValue();
        case Alternate(_) =>
          value := !value;
          v := Flag(!value);
      }
    }

    method ResetValues()
      requires Built() && (runValues.Stored? ==> runValues.values.Valid())
      modifies runValues.Repr(), `value
      ensures runValues.Stored? ==> runValues.values.Valid()
      ensures match runValues
              case Stored(values) => values.encodingPosition == 0
              case Alternate(initial) => value == initial
      decreases height, 3
    {
      hide Encoding.Valid, Encoding.Rows, Expand, Alternating, BufferedEncoding.Valid;
      match runValues {
        case Stored(values) => values.Reset();
        case Alternate(initialValue) => value := initialValue;
      }
    }

    method NextRun()
      requires Built() && runLengths.Valid() && (runValues.Stored? ==> runValues.values.Valid())
      requires BetweenRuns(runLengths.encodingPosition)
      modifies repr
      ensures Valid() && at == old(at)
      ensures runLengths.encodingPosition == old(runLengths.encodingPosition) + 1
      decreases height, 4
    {
      hide Encoding.Valid, Encoding.Rows, Encoding.Repr, Expand, Alternating, BufferedEncoding.Valid, Sum;
      ghost var f := runLengths.encodingPosition;
      SumAll(Lengths());
      if f < |Lengths()| {
        SumNext(Lengths(), f);
        if runValues.Alternate? { AlternatingAt(runValues.initialValue, |Lengths()|, f); }
      }
      var copies := runLengths.NextValue();
      copiesRemaining := Nat(copies);
      currentValue := NextValue();
    }

    method Reset()
      requires Built() && runLengths.Valid() && (runValues.Stored? ==> runValues.values.Valid())
      modifies repr
      ensures Valid() && at == 0
      decreases height, 5
    {
      hide Encoding.Valid, Encoding.Rows, Expand, Alternating, BufferedEncoding.Valid;
      at := 0;
      runLengths.Reset();
      ResetValues();
      SumAll(Lengths());
      NextRun();
    }

    /** The next `n` copies of the current run. */
    method Take(n: nat) returns (run: seq<Value>)
      requires Valid() && at < |rows| && n <= copiesRemaining
      modifies `at, `copiesRemaining
      ensures Valid() && at == old(at) + n && copiesRemaining == old(copiesRemaining) - n
      ensures run == rows[old(at)..at]
    {
      hide Encoding.Valid, Encoding.Rows, Expand, Alternating, BufferedEncoding.Valid;
      RunRows(Lengths(), Values(), runLengths.encodingPosition - 1, at, copiesRemaining, n);
      run := Repeat(currentValue, n);
      copiesRemaining, at := copiesRemaining - n, at + n;
    }

    method Skip(n: nat)
      requires Valid() && at + n <= |rows|
      modifies repr
      ensures Valid() && at == old(at) + n
      decreases height, 5
    {
      hide Encoding.Valid, Encoding.Rows, Expand, Alternating, BufferedEncoding.Valid;
      var rowsLeft := n;
      while rowsLeft > 0
        invariant Valid() && rowsLeft >= 0 && at + rowsLeft == old(at) + n
        decreases |Lengths()| + 1 - runLengths.encodingPosition
      {
        if rowsLeft < copiesRemaining {
          copiesRemaining, at := copiesRemaining - rowsLeft, at + rowsLeft;
          return;
        } else {
          rowsLeft, at := rowsLeft - copiesRemaining, at + copiesRemaining;
          NextRun();
        }
      }
    }

    method Materialize(n: nat) returns (output: seq<Value>)
      requires Valid() && at + n <= |rows|
      modifies repr
      ensures Valid() && at == old(at) + n && output == rows[old(at)..at]
      decreases height, 5
    {
      hide Encoding.Valid, Encoding.Rows, Expand, Alternating, BufferedEncoding.Valid;
      var rowsLeft := n;
      output := [];
      while rowsLeft > 0
        invariant Valid() && 0 <= rowsLeft <= n && at + rowsLeft == old(at) + n <= |rows|
        invariant output == rows[old(at)..at]
        decreases |Lengths()| + 1 - runLengths.encodingPosition
      {
        if rowsLeft < copiesRemaining {
          var run := Take(rowsLeft);
          output := output + run;
          return;
        } else {
          rowsLeft := rowsLeft - copiesRemaining;
          var run := Take(copiesRemaining);
          output := output + run;
          NextRun();
        }
      }
    }
  }

  lemma RunRows(lengths: seq<nat>, values: seq<Value>, k: nat, from: nat, left: nat, n: nat)
    requires |lengths| == |values| && k < |lengths|
    requires from + left == Sum(lengths[..k + 1]) && n <= left <= lengths[k]
    ensures from + n <= |Expand(lengths, values)|
    ensures Expand(lengths, values)[from..from + n] == Repeat(values[k], n)
  {
    SumNext(lengths, k);
    var rows := Expand(lengths, values);
    forall i | from <= i < from + n ensures rows[i] == values[k] {
      ExpandAt(lengths, values, k, i);
    }
  }

  // ----- Dictionary

  class DictionaryEncoding {
    var alphabet: seq<Value>
    const indices: Encoding
    const rowCount: nat
    ghost const rows: seq<Value>
    ghost const repr: set<object>
    ghost const height: nat
    ghost var at: nat

    /** Loads the alphabet. */
    constructor (alphabetEncoding: Encoding, indices: Encoding)
      requires alphabetEncoding.Valid() && indices.Valid() && alphabetEncoding.Repr() !! indices.Repr()
      requires alphabetEncoding.At() == indices.At() == 0
      requires InRange(Nats(indices.Rows()), |alphabetEncoding.Rows()|)
      modifies alphabetEncoding.Repr()
      ensures repr == {this} + indices.Repr() && Valid() && at == 0
      ensures rows == Lookup(alphabetEncoding.Rows(), Nats(indices.Rows()))
    {
      hide Encoding.Valid, Encoding.At, Encoding.Rows, Encoding.Repr, Lookup;
      ReprAllocated(indices);
      ReprAllocated(alphabetEncoding);
      this.indices := indices;
      indices.CountsRows();
      rowCount := indices.RowCount();
      rows := Lookup(alphabetEncoding.Rows(), Nats(indices.Rows()));
      repr := {this} + indices.Repr();
      height := indices.Height() + 1;
      at := 0;
      new;
      alphabetEncoding.CountsRows();
      alphabet := alphabetEncoding.Materialize(alphabetEncoding.RowCount());
      assert alphabet == alphabetEncoding.Rows();
    }

    ghost predicate Valid()
      reads this, repr
      decreases height, 5
    {
      && this in repr && indices.Repr() <= repr && this !in indices.Repr() && indices.Height() < height
      && indices.Valid() && at == indices.At() <= |rows| == rowCount
      && InRange(Nats(indices.Rows()), |alphabet|) && rows == Lookup(alphabet, Nats(indices.Rows()))
    }

    method Reset()
      requires Valid()
      modifies repr
      ensures Valid() && at == 0
      decreases height, 5
    {
      hide Encoding.Valid, Encoding.At, Encoding.Repr, Encoding.Rows;
      indices.Reset();
      at := 0;
    }

    method Skip(n: nat)
      requires Valid() && at + n <= |rows|
      modifies repr
      ensures Valid() && at == old(at) + n
      decreases height, 5
    {
      hide Encoding.Valid, Encoding.At, Encoding.Repr, Encoding.Rows;
      indices.Skip(n);
      at := at + n;
    }

    method Materialize(n: nat) returns (output: seq<Value>)
      requires Valid() && at + n <= |rows|
      modifies repr
      ensures Valid() && at == old(at) + n && output == rows[old(at)..at]
      decreases height, 5
    {
      hide Encoding.Valid, Encoding.At, Encoding.Repr, Encoding.Rows;
      var buffer := indices.Materialize(n);
      output := [];
      for i := 0 to n
        invariant indices.Valid() && indices.At() == at + n && alphabet == old(alphabet) && at == old(at)
        invariant output == rows[at..at + i]
      {
        assert Nat(buffer[i]) == Nats(indices.Rows())[at + i];
        output := output + [alphabet[Nat(buffer[i])]];
      }
      at := at + n;
    }
  }

  // ----- MainlyConstant

  class MainlyConstantEncoding {
    const isCommon: Encoding
    const otherValues: Encoding
    const commonValue: Value
    const rowCount: nat
    ghost const rows: seq<Value>
    ghost const repr: set<object>
    ghost const height: nat
    ghost var at: nat

    constructor (isCommon: Encoding, otherValues: Encoding, commonValue: Value)
      requires isCommon.Valid() && otherValues.Valid() && isCommon.Repr() !! otherValues.Repr()
      requires isCommon.At() == otherValues.At() == 0
      requires |otherValues.Rows()| == |isCommon.Rows()| - CountTrue(Flags(isCommon.Rows()))
      ensures repr == {this} + isCommon.Repr() + otherValues.Repr() && Valid() && at == 0
      ensures rows == Merged(Flags(isCommon.Rows()), commonValue, otherValues.Rows())
    {
      hide Encoding.Valid, Encoding.At, Encoding.Rows, Encoding.Repr, CountTrue, Merged, Rank, Flags;
      ReprAllocated(isCommon);
      ReprAllocated(otherValues);
      this.isCommon := isCommon;
      this.otherValues := otherValues;
      this.commonValue := commonValue;
      isCommon.CountsRows();
      rowCount := isCommon.RowCount();
      rows := Merged(Flags(isCommon.Rows()), commonValue, otherValues.Rows());
      repr := {this} + isCommon.Repr() + otherValues.Repr();
      height := isCommon.Height() + otherValues.Height() + 1;
      at := 0;
      new;
      RankAll(Flags(isCommon.Rows()));
    }

    ghost predicate Built()
    {
      && this in repr && Owned(isCommon) && Owned(otherValues) && isCommon.Repr() !! otherValues.Repr()
      && |isCommon.Rows()| == rowCount
      && |otherValues.Rows()| == rowCount - CountTrue(Flags(isCommon.Rows()))
      && rows == Merged(Flags(isCommon.Rows()), commonValue, otherValues.Rows())
    }

    ghost predicate Owned(child: Encoding)
    {
      child.Repr() <= repr && this !in child.Repr() && child.Height() < height
    }

    /** The cursor of the other values has passed the rows so far that are not common. */
    ghost predicate Valid()
      reads this, repr
      decreases height, 5
    {
      && Built() && isCommon.Valid() && otherValues.Valid() && at == isCommon.At() <= rowCount
      && otherValues.At() == at - Rank(Flags(isCommon.Rows()), at)
    }

    method Reset()
      requires Valid()
      modifies repr
      ensures Valid() && at == 0
      decreases height, 5
    {
      hide Encoding.Valid, Encoding.At, Encoding.Repr, Encoding.Rows, CountTrue, Merged, Rank, Flags;
      isCommon.Reset();
      otherValues.Reset();
      at := 0;
      RankAll(Flags(isCommon.Rows()));
    }

    /** The flags of the next rows, and how many of those are not common. */
    method ReadFlags(n: nat) returns (isCommonBuffer: seq<Value>, nonCommonCount: nat)
      requires Valid() && at + n <= |rows|
      modifies isCommon.Repr()
      ensures isCommon.Valid() && isCommon.At() == at + n && otherValues.Valid()
      ensures otherValues.At() == at - Rank(Flags(isCommon.Rows()), at)
      ensures Flags(isCommonBuffer) == Flags(isCommon.Rows())[at..at + n]
      ensures nonCommonCount == n - CountTrue(Flags(isCommonBuffer))
      ensures
        var next := at + n - Rank(Flags(isCommon.Rows()), at + n);
        otherValues.At() + nonCommonCount == next <= |otherValues.Rows()|
      decreases height, 4
    {
      hide Encoding.Valid, Encoding.At, Encoding.Repr, Encoding.Rows, CountTrue, Merged, Rank, Flags;
      SliceRanks(Flags(isCommon.Rows()), at, at + n);
      isCommonBuffer := isCommon.Materialize(n);
      FlagsSlice(isCommon.Rows(), at, at + n);
      nonCommonCount := n - CountTrue(Flags(isCommonBuffer));
    }

    method Skip(n: nat)
      requires Valid() && at + n <= |rows|
      modifies repr
      ensures Valid() && at == old(at) + n
      decreases height, 5
    {
      hide Encoding.Valid, Encoding.At, Encoding.Repr, Encoding.Rows, CountTrue, Merged, Rank, Flags;
      var isCommonBuffer, nonCommonCount := ReadFlags(n);
      at := at + n;
      if nonCommonCount == 0 { return; }
      otherValues.Skip(nonCommonCount);
    }

    method Materialize(n: nat) returns (output: seq<Value>)
      requires Valid() && at + n <= |rows|
      modifies repr
      ensures Valid() && at == old(at) + n && output == rows[old(at)..at]
      decreases height, 5
    {
      hide Encoding.Valid, Encoding.At, Encoding.Repr, Encoding.Rows, CountTrue, Merged, Rank, Flags, Repeat;
      ghost var flags, start := Flags(isCommon.Rows()), at;
      var isCommonBuffer, nonCommonCount := ReadFlags(n);
      MergedSlice(flags, commonValue, otherValues.Rows(), start, start + n);
      at := at + n;
      if nonCommonCount == 0 {
        output := Repeat(commonValue, n);
        AllCommon(Flags(isCommonBuffer), commonValue);
        assert otherValues.Rows()[start - Rank(flags, start)..at - Rank(flags, at)] == [];
        return;
      }
      var otherValuesBuffer := otherValues.Materialize(nonCommonCount);
      output := ScatterOthers(isCommonBuffer, commonValue, otherValuesBuffer);
    }
  }

  /** Where `flags` is set the common value, elsewhere the next of the others. */
  ghost function Merged(flags: seq<bool>, common: Value, others: seq<Value>): (r: seq<Value>)
    requires |others| == |flags| - CountTrue(flags)
    ensures |r| == |flags|
  {
    Merge(flags, Repeat(common, CountTrue(flags)), others)
  }

  lemma MergedSlice(flags: seq<bool>, common: Value, others: seq<Value>, i: nat, j: nat)
    requires |others| == |flags| - CountTrue(flags) && i <= j <= |flags|
    ensures i - Rank(flags, i) <= j - Rank(flags, j) <= |others|
    ensures CountTrue(flags[i..j]) == Rank(flags, j) - Rank(flags, i)
    ensures Merged(flags, common, others)[i..j] ==
      Merged(flags[i..j], common, others[i - Rank(flags, i)..j - Rank(flags, j)])
  {
    hide CountTrue, Merge;
    var chosen := Repeat(common, CountTrue(flags));
    MergeSlice(flags, chosen, others, i, j);
    assert chosen[Rank(flags, i)..Rank(flags, j)] == Repeat(common, CountTrue(flags[i..j]));
  }

  lemma AllCommon(flags: seq<bool>, common: Value)
    requires CountTrue(flags) == |flags|
    ensures Merged(flags, common, []) == Repeat(common, |flags|)
  {
    RankAll(flags);
    FullPrefix(flags, |flags|);
    forall k | 0 <= k < |flags| ensures Merged(flags, common, [])[k] == common {
      MergeAt(flags, Repeat(common, |flags|), [], k);
    }
  }

  method ScatterOthers(isCommon: seq<Value>, common: Value, others: seq<Value>) returns (output: seq<Value>)
    requires |others| == |isCommon| - CountTrue(Flags(isCommon))
    ensures output == Merged(Flags(isCommon), common, others)
  {
    hide CountTrue, Merge;
    ghost var flags := Flags(isCommon);
    output := [];
    var nextOtherValue := 0;
    RankAll(flags);
    for i := 0 to |isCommon|
      invariant nextOtherValue == i - Rank(flags, i)
      invariant |output| == i && forall k :: 0 <= k < i ==> output[k] == Merged(flags, common, others)[k]
    {
      RankNext(flags, i);
      MergeAt(flags, Repeat(common, CountTrue(flags)), others, i);
      if IsSet(isCommon[i]) {
        output := output + [common];
      } else {
        output := output + [others[nextOtherValue]];
        nextOtherValue := nextOtherValue + 1;
      }
    }
  }

  // ----- Nullable

  class NullableEncoding {
    const nonNulls: Encoding
    const nulls: Encoding
    const default: Value
    const rowCount: nat
    ghost const rows: seq<Value>
    ghost const present: seq<bool>
    ghost const repr: set<object>
    ghost const height: nat
    var row: nat
    ghost var at: nat

    constructor (nonNulls: Encoding, nulls: Encoding, default: Value)
      requires nonNulls.Valid() && nulls.Valid() && nonNulls.Repr() !! nulls.Repr()
      requires nonNulls.At() == nulls.At() == 0
      requires |nonNulls.Rows()| == CountTrue(Flags(nulls.Rows()))
      ensures repr == {this} + nonNulls.Repr() + nulls.Repr() && Valid() && at == 0
      ensures present == Flags(nulls.Rows()) && rows == Filled(present, nonNulls.Rows(), default)
    {
      hide Encoding.Valid, Encoding.At, Encoding.Rows, Encoding.Repr, CountTrue, Rank, Filled, Flags;
      ReprAllocated(nonNulls);
      ReprAllocated(nulls);
      this.nonNulls := nonNulls;
      this.nulls := nulls;
      this.default := default;
      nulls.CountsRows();
      rowCount := nulls.RowCount();
      present := Flags(nulls.Rows());
      rows := Filled(Flags(nulls.Rows()), nonNulls.Rows(), default);
      repr := {this} + nonNulls.Repr() + nulls.Repr();
      height := nonNulls.Height() + nulls.Height() + 1;
      row, at := 0, 0;
      new;
      RankAll(present);
    }

    ghost predicate Built()
    {
      && this in repr && Owned(nonNulls) && Owned(nulls) && nonNulls.Repr() !! nulls.Repr()
      && |present| == rowCount && present == Flags(nulls.Rows()) && |nonNulls.Rows()| == CountTrue(present)
      && rows == Filled(present, nonNulls.Rows(), default)
    }

    ghost predicate Owned(child: Encoding)
    {
      child.Repr() <= repr && this !in child.Repr() && child.Height() < height
    }

    /** The cursor of the values has passed the rows so far that are not null. */
    ghost predicate Valid()
      reads this, repr
      decreases height, 5
    {
      && Built() && nonNulls.Valid() && nulls.Valid() && at == nulls.At() <= rowCount &&
        nonNulls.At() == Rank(present, at)
    }

    method Reset()
      requires Valid()
      modifies repr
      ensures Valid() && at == 0
      decreases height, 5
    {
      hide Encoding.Valid, Encoding.At, Encoding.Repr, Encoding.Rows, CountTrue, Rank, Filled, Flags;
      row := 0;
      nonNulls.Reset();
      nulls.Reset();
      at := 0;
      RankAll(present);
    }

    method Skip(n: nat)
      requires Valid() && at + n <= |rows|
      modifies repr
      ensures Valid() && at == old(at) + n
      decreases height, 5
    {
      hide Encoding.Valid, Encoding.At, Encoding.Repr, Encoding.Rows, CountTrue, Rank, Filled, Flags;
      SliceRanks(present, at, at + n);
      var boolBuffer := nulls.Materialize(n);
      FlagsSlice(nulls.Rows(), at, at + n);
      var nonNullCount := CountTrue(Flags(boolBuffer));
      nonNulls.Skip(nonNullCount);
      at := at + n;
    }

    method Materialize(n: nat) returns (output: seq<Value>)
      requires Valid() && at + n <= |rows|
      modifies repr
      ensures Valid() && at == old(at) + n && output == rows[old(at)..at]
      decreases height, 6
    {
      hide Encoding.Valid, Encoding.At, Encoding.Repr, Encoding.Rows, CountTrue, Rank, Filled, Flags;
      var boolBuffer;
      output, boolBuffer := ReadPresent(n);
      if |output| != n {
        RankMono(boolBuffer, 0, n);
        RankAll(boolBuffer);
        output := FillDefaults(output, boolBuffer, default);
      } else {
        AllPresent(boolBuffer, output, default);
      }
    }

    /** The null flags of the next `n` rows and the values of those that are not null. */
    method ReadPresent(n: nat) returns (values: seq<Value>, flags: seq<bool>)
      requires Valid() && at + n <= |rows|
      modifies repr
      ensures Valid() && at == old(at) + n
      ensures flags == present[old(at)..at] && |values| == CountTrue(flags)
      ensures rows[old(at)..at] == Filled(flags, values, default)
      decreases height, 5
    {
      hide Encoding.Valid, Encoding.At, Encoding.Repr, Encoding.Rows, CountTrue, Rank, Filled, Flags;
      SliceRanks(present, at, at + n);
      FilledSlice(present, nonNulls.Rows(), default, at, at + n);
      var boolBuffer := nulls.Materialize(n);
      flags := Flags(boolBuffer);
      FlagsSlice(nulls.Rows(), at, at + n);
      values := nonNulls.Materialize(CountTrue(flags));
      row := row + n;
      at := at + n;
    }
  }

  /** Where `present` is set the next value, elsewhere the default. */
  ghost function Filled(present: seq<bool>, values: seq<Value>, default: Value): (r: seq<Value>)
    requires |values| == CountTrue(present)
    ensures |r| == |present|
  {
    Merge(present, values, Repeat(default, |present| - |values|))
  }

  lemma FilledSlice(present: seq<bool>, values: seq<Value>, default: Value, i: nat, j: nat)
    requires |values| == CountTrue(present) && i <= j <= |present|
    ensures Rank(present, i) <= Rank(present, j) <= |values|
    ensures CountTrue(present[i..j]) == Rank(present, j) - Rank(present, i)
    ensures Filled(present, values, default)[i..j] ==
      Filled(present[i..j], values[Rank(present, i)..Rank(present, j)], default)
  {
    hide CountTrue, Merge;
    var others := Repeat(default, |present| - |values|);
    MergeSlice(present, values, others, i, j);
    assert others[i - Rank(present, i)..j - Rank(present, j)] ==
      Repeat(default, (j - i) - CountTrue(present[i..j]));
  }

  lemma AllPresent(present: seq<bool>, values: seq<Value>, default: Value)
    requires |values| == CountTrue(present) == |present|
    ensures Filled(present, values, default) == values
  {
    RankAll(present);
    FullPrefix(present, |present|);
    forall k | 0 <= k < |present| ensures Filled(present, values, default)[k] == values[k] {
      MergeAt(present, values, [], k);
    }
  }

  /** Spreads the values out over the rows, in place. */
  method FillDefaults(values: seq<Value>, present: seq<bool>, default: Value) returns (output: seq<Value>)
    requires |values| == CountTrue(present) < |present|
    ensures output == Filled(present, values, default)
  {
    hide CountTrue, Merge;
    var buffer := new Value[|present|](i => if 0 <= i < |values| then values[i] else default);
    assert buffer[..|values|] == values;
    ScatterDefaults(buffer, present, |values|, default);
    output := buffer[..];
  }
}
