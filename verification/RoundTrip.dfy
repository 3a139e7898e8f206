/** From rows to bytes and back: any choice of encodings that fits, any way of reading. */
module RoundTrip {
  import opened Wrappers
  import opened Sequences
  import opened Format
  import opened Layouts
  import opened Derived
  import opened Encodings
  import opened Encoder
  import opened EncodingFactory

  /**
    Encodes the rows along `plan`, decodes the bytes and takes `steps` through the result.  The rows come back
    unless there are so many of them that the bytes might not fit the 32-bit sizes of the format.
   */
  method EncodeAndRead(c: Codec, plan: Layout, dt: DataType, values: seq<Value>, steps: seq<Step>)
    returns (outputs: Option<seq<seq<Value>>>)
    requires Lawful(c) && WellTyped(dt, values) && Compatible(c, plan, dt, values)
    requires Observed(values, 0, steps).Some?
    ensures outputs.Some? ==> outputs == Observed(values, 0, steps)
    ensures SizeBound(plan, |values|, |Blob(values)|) < 0x1_0000_0000 ==> outputs.Some?
  {
    hide Denote, Compatible, Observed, Encoding.Valid, Encoding.At, Encoding.Rows, WellTyped, SizeBound;
    var r := Encode(c, plan, dt, values);
    if |r.value.bytes| >= 0x1_0000_0000 { return None; }
    var e := Decode(c.unpack, r.value.bytes);
    var slices := Run(e, steps);
    outputs := Some(slices);
  }

  /**
    A column with nulls, row by row: a present row is the next of the values, a null row the number 0, the flag
    false or the empty string.
   */
  function RowByRow(dt: DataType, values: seq<Value>, present: seq<bool>): (rows: seq<Value>)
    requires |values| == CountTrue(present)
    ensures |rows| == |present|
  {
    seq(|present|, k requires 0 <= k < |present| =>
      if present[k] then
        RankBound(present, k);
        values[Rank(present, k)]
      else if dt == Bool then Flag(false)
      else if dt == String then Str([])
      else Num(0))
  }

  lemma NullsAreDefaults(dt: DataType, values: seq<Value>, present: seq<bool>)
    requires |values| == CountTrue(present)
    ensures NullableColumn(dt, present, values).values == RowByRow(dt, values, present)
  {
    hide CountTrue, Merge, Rank;
    var column := NullableColumn(dt, present, values).values;
    forall k | 0 <= k < |present| ensures column[k] == RowByRow(dt, values, present)[k] {
      MergeAt(present, values, Repeat(Default(dt), |present| - |values|), k);
    }
  }

  /** The same for a column with nulls. */
  method EncodeAndReadNullable(
      c: Codec, plan: Layout, dt: DataType, values: seq<Value>, present: seq<bool>, steps: seq<Step>)
    returns (outputs: Option<seq<seq<Value>>>)
    requires Lawful(c) && WellTyped(dt, values) && |values| == CountTrue(present) && |present| < 0x1_0000_0000
    requires plan.encoding == 5 && CompatibleChild(c, plan, 0, dt.Physical(), values)
    requires CompatibleChild(c, plan, 1, Bool, FlagRows(present))
    requires Observed(RowByRow(dt, values, present), 0, steps).Some?
    ensures outputs.Some? ==> outputs == Observed(RowByRow(dt, values, present), 0, steps)
    ensures SizeBound(plan, |present|, |Blob(values)|) < 0x1_0000_0000 ==> outputs.Some?
  {
    hide Denote, CompatibleChild, Observed, Encoding.Valid, Encoding.At, Encoding.Rows, WellTyped, CountTrue;
    hide NullableColumn, FlagRows, SizeBound, RowByRow;
    NullsAreDefaults(dt, values, present);
    var r := EncodeNullable(c, plan, dt, values, present);
    if |r.value.bytes| >= 0x1_0000_0000 { return None; }
    var e := Decode(c.unpack, r.value.bytes);
    var slices := Run(e, steps);
    outputs := Some(slices);
  }
}
