/**
  Decoding: from bytes to a tree of cursors.  The tree runs over exactly the column that the bytes
  denote, whatever way its encodings are nested.
 */
module EncodingFactory {
  import opened Wrappers
  import opened BitMath
  import opened FixedBitArrays
  import opened Sequences
  import opened Format
  import opened LeafEncodings
  import opened Encodings
  import Varints

  /** A fresh cursor at the start of the column. */
  twostate predicate Decoded(new e: Encoding, c: Option<Column>)
    reads e.Repr()
  {
    && c.Some? && e.Valid() && fresh(e.Repr()) && e.At() == 0
    && e.Rows() == c.value.values && e.Present() == c.value.present
  }

  method Decode(z: Unpacker, d: seq<Byte>) returns (e: Encoding)
    requires Denote(z, d).Some?
    ensures Decoded(e, Denote(z, d))
    decreases |d|, 1
  {
    hide DenoteTrivial, DenoteRle, DenoteDictionary, DenoteFixedBitWidth, DenoteNullable, DenoteSparseBool;
    hide DenoteVarint, DenoteConstant, DenoteMainlyConstant, Encoding.Valid, Encoding.Rows, Encoding.At;
    var dt, n, body := TypeOf(d[1]).value, LeNat(d[2..6]), d[PREFIX_SIZE..];
    match d[0] {
      case 0 => e := DecodeTrivial(z, dt, n, body);
      case 1 => e := DecodeRle(z, dt, n, body);
      case 2 => e := DecodeDictionary(z, dt, n, body);
      case 3 => e := DecodeFixedBitWidth(z, dt, n, body);
      case 5 => e := DecodeNullable(z, dt, n, body);
      case 6 => e := DecodeSparseBool(z, dt, n, body);
      case 7 => e := DecodeVarint(dt, n, body);
      case 9 => e := DecodeConstant(dt, n, body);
      case 10 => e := DecodeMainlyConstant(z, dt, n, body);
    }
  }

  method DecodeTrivial(z: Unpacker, dt: DataType, n: nat, body: seq<Byte>) returns (e: Encoding)
    requires DenoteTrivial(z, dt, n, body).Some?
    ensures Decoded(e, DenoteTrivial(z, dt, n, body))
    decreases |body|, 2
  {
    hide Denote, Cut, Bits, Numbers, TrivialStringEncoding.Valid;
    if dt == String {
      var parts := ReadString(body[1..]).value;
      var lengths := Decode(z, parts.0);
      var strings := new TrivialStringEncoding(Unpack(z, body[0], parts.1), lengths);
      e := TrivialString(strings);
    } else {
      var raw := Unpack(z, body[0], body[1..]);
      if dt == Bool {
        var bools := new TrivialBoolEncoding(raw, n);
        e := TrivialBool(bools);
      } else {
        var numbers := new TrivialEncoding(raw, dt.Size(), n);
        e := Trivial(numbers);
      }
    }
  }

  method DecodeRle(z: Unpacker, dt: DataType, n: nat, body: seq<Byte>) returns (e: Encoding)
    requires DenoteRle(z, dt, n, body).Some?
    ensures Decoded(e, DenoteRle(z, dt, n, body))
    decreases |body|, 2
  {
    hide Denote, Expand, RleEncoding.Valid, BufferedEncoding.Valid;
    hide Encoding.Valid, Encoding.At, Encoding.Rows, Encoding.Present, Encoding.Repr;
    var parts := ReadString(body).value;
    var runLengths := DecodeBuffered(z, parts.0);
    var runValues := DecodeRunValues(z, dt, parts.1, |Nats(Denote(z, parts.0).value.values)|);
    var rle := new RleEncoding(runLengths, runValues, n);
    e := Rle(rle);
    WrapRle(rle);
  }

  method DecodeBuffered(z: Unpacker, d: seq<Byte>) returns (buffered: BufferedEncoding)
    requires Denote(z, d).Some?
    ensures buffered.Valid() && fresh(buffered) && fresh(buffered.repr) && buffered in buffered.repr
    ensures buffered.encoding.Rows() == Denote(z, d).value.values
    decreases |d|, 2
  {
    hide Denote, Encoding.Valid, Encoding.At, Encoding.Rows, Encoding.Present;
    var e := Decode(z, d);
    buffered := new BufferedEncoding(e);
  }

  method DecodeRunValues(z: Unpacker, dt: DataType, b: seq<Byte>, ghost runs: nat) returns (values: RunValues)
    requires if dt == Bool then |b| == 1 else IsColumn(Denote(z, b), dt.Physical(), runs)
    ensures values.Stored? ==> values.values.Valid()
    ensures fresh(values.Repr()) && |values.Values(runs)| == runs
    ensures values.Values(runs) == if dt == Bool then Alternating(b[0] != 0, runs) else Denote(z, b).value.values
    decreases |b|, 3
  {
    hide Denote, BufferedEncoding.Valid, Encoding.Valid, Encoding.At, Encoding.Rows, Encoding.Present;
    if dt == Bool {
      values := Alternate(b[0] != 0);
    } else {
      var buffered := DecodeBuffered(z, b);
      values := Stored(buffered);
    }
  }

  method DecodeDictionary(z: Unpacker, dt: DataType, n: nat, body: seq<Byte>) returns (e: Encoding)
    requires DenoteDictionary(z, dt, n, body).Some?
    ensures Decoded(e, DenoteDictionary(z, dt, n, body))
    decreases |body|, 2
  {
    hide Denote, Lookup, DictionaryEncoding.Valid, HasType, Nats, InRange, Encoding.Repr;
    hide Encoding.Valid, Encoding.At, Encoding.Rows, Encoding.Present;
    var parts := ReadString(body).value;
    var alphabet, indices := DecodeBoth(z, parts.0, parts.1, body);
    var dictionary := new DictionaryEncoding(alphabet, indices);
    e := Dictionary(dictionary);
    WrapDictionary(dictionary);
  }

  method DecodeFixedBitWidth(z: Unpacker, dt: DataType, n: nat, body: seq<Byte>) returns (e: Encoding)
    requires DenoteFixedBitWidth(z, dt, n, body).Some?
    ensures Decoded(e, DenoteFixedBitWidth(z, dt, n, body))
  {
    hide Packed, BufferSize;
    var baseline, w := LeNat(body[1..1 + dt.Size()]), body[1 + dt.Size()];
    var raw := Unpack(z, body[0], body[2 + dt.Size()..]);
    var buffer := new Byte[|raw|](i requires 0 <= i < |raw| => raw[i]);
    assert buffer[..] == raw;
    var packed := new FixedBitArray(buffer, w);
    var fixed := new FixedBitWidthEncoding(packed, baseline, 8 * dt.Size(), n);
    e := FixedBitWidth(fixed);
  }

  /** Two children of one parent. */
  method DecodeBoth(z: Unpacker, first: seq<Byte>, second: seq<Byte>, ghost parent: seq<Byte>)
    returns (x: Encoding, y: Encoding)
    requires |first| < |parent| && |second| < |parent| && Denote(z, first).Some? && Denote(z, second).Some?
    ensures Decoded(x, Denote(z, first)) && Decoded(y, Denote(z, second)) && x.Repr() !! y.Repr()
    decreases |parent|, 0
  {
    hide Denote, Encoding.Valid, Encoding.At, Encoding.Rows, Encoding.Present;
    x := Decode(z, first);
    y := Decode(z, second);
  }

  method DecodeNullable(z: Unpacker, dt: DataType, n: nat, body: seq<Byte>) returns (e: Encoding)
    requires DenoteNullable(z, dt, n, body).Some?
    ensures Decoded(e, DenoteNullable(z, dt, n, body))
    decreases |body|, 2
  {
    hide Denote, Merge, CountTrue, NullableEncoding.Valid, HasType, Flags, Default, Encoding.Repr;
    hide Encoding.Valid, Encoding.At, Encoding.Rows, Encoding.Present;
    var parts := ReadString(body).value;
    var values, nulls := DecodeBoth(z, parts.0, parts.1, body);
    var nullable := new NullableEncoding(values, nulls, Default(dt));
    e := Nullable(nullable);
    WrapNullable(nullable);
  }

  method DecodeSparseBool(z: Unpacker, dt: DataType, n: nat, body: seq<Byte>) returns (e: Encoding)
    requires DenoteSparseBool(z, dt, n, body).Some?
    ensures Decoded(e, DenoteSparseBool(z, dt, n, body))
    decreases |body|, 2
  {
    hide Denote, Sparse, SparseBoolEncoding.Valid, BufferedEncoding.Valid;
    hide Encoding.Valid, Encoding.At, Encoding.Rows, Encoding.Present;
    var buffered := DecodeBuffered(z, body[1..]);
    var sparse := new SparseBoolEncoding(body[0] != 0, buffered, n);
    e := SparseBool(sparse);
    WrapSparseBool(sparse);
  }

  method DecodeVarint(dt: DataType, n: nat, body: seq<Byte>) returns (e: Encoding)
    requires DenoteVarint(dt, n, body).Some?
    ensures Decoded(e, DenoteVarint(dt, n, body))
  {
    hide Varints.Stream, Varints.Values, Shifted, VarintEncoding.Valid;
    LeNatFits(body[..dt.Size()]);
    var varint := new VarintEncoding(body[dt.Size()..], LeNat(body[..dt.Size()]), 8 * dt.Size(), n);
    e := Varint(varint);
  }

  method DecodeConstant(dt: DataType, n: nat, body: seq<Byte>) returns (e: Encoding)
    requires DenoteConstant(dt, n, body).Some?
    ensures Decoded(e, DenoteConstant(dt, n, body))
  {
    var constant := new ConstantEncoding(ReadValue(dt, body).value.0, n);
    e := Constant(constant);
  }

  method DecodeMainlyConstant(z: Unpacker, dt: DataType, n: nat, body: seq<Byte>) returns (e: Encoding)
    requires DenoteMainlyConstant(z, dt, n, body).Some?
    ensures Decoded(e, DenoteMainlyConstant(z, dt, n, body))
    decreases |body|, 2
  {
    hide Denote, Merge, CountTrue, MainlyConstantEncoding.Valid, HasType, Flags, ReadValue, Encoding.Repr;
    hide Encoding.Valid, Encoding.At, Encoding.Rows, Encoding.Present;
    var first := ReadString(body).value;
    var second := ReadString(first.1).value;
    var isCommon, otherValues := DecodeBoth(z, first.0, second.0, body);
    var mainly := new MainlyConstantEncoding(isCommon, otherValues, ReadValue(dt, second.1).value.0);
    e := MainlyConstant(mainly);
    WrapMainlyConstant(mainly);
  }

  // ----- what wrapping an object into an Encoding means

  lemma WrapDictionary(e: DictionaryEncoding)
    requires e.Valid()
    ensures Dictionary(e).Repr() == {e} + e.repr
    ensures Dictionary(e).Valid() && Dictionary(e).At() == e.at && Dictionary(e).Rows() == e.rows
    ensures Dictionary(e).Present() == Repeat(true, |e.rows|)
  {
  }

  lemma WrapNullable(e: NullableEncoding)
    requires e.Valid()
    ensures Nullable(e).Repr() == {e} + e.repr
    ensures Nullable(e).Valid() && Nullable(e).At() == e.at && Nullable(e).Rows() == e.rows
    ensures Nullable(e).Present() == e.present
  {
  }

  lemma WrapMainlyConstant(e: MainlyConstantEncoding)
    requires e.Valid()
    ensures MainlyConstant(e).Repr() == {e} + e.repr
    ensures MainlyConstant(e).Valid() && MainlyConstant(e).At() == e.at && MainlyConstant(e).Rows() == e.rows
    ensures MainlyConstant(e).Present() == Repeat(true, |e.rows|)
  {
  }

  lemma WrapSparseBool(e: SparseBoolEncoding)
    requires e.Valid()
    ensures SparseBool(e).Repr() == {e} + e.repr
    ensures SparseBool(e).Valid() && SparseBool(e).At() == e.at && SparseBool(e).Rows() == e.rows
    ensures SparseBool(e).Present() == Repeat(true, |e.rows|)
  {
  }

  lemma WrapRle(e: RleEncoding)
    requires e.Valid()
    ensures Rle(e).Repr() == {e} + e.repr
    ensures Rle(e).Valid() && Rle(e).At() == e.at && Rle(e).Rows() == e.rows
    ensures Rle(e).Present() == Repeat(true, |e.rows|)
  {
  }

  // ----- any run of calls

  datatype Step = Read(n: nat) | Skipping(n: nat) | Restart

  /** What a reader of the plain sequence would see, or nothing if a step leaves its bounds. */
  function Observed(rows: seq<Value>, at: nat, steps: seq<Step>): Option<seq<seq<Value>>>
    requires at <= |rows|
    decreases |steps|
  {
    if steps == [] then Some([])
    else
      match steps[0]
      case Read(n) =>
        if at + n > |rows| then None
        else
          var rest := Observed(rows, at + n, steps[1..]);
          if rest.None? then None else Some([rows[at..at + n]] + rest.value)
      case Skipping(n) => if at + n > |rows| then None else Observed(rows, at + n, steps[1..])
      case Restart => Observed(rows, 0, steps[1..])
  }

  /** Any interleaving of materialize, skip and reset yields the matching slices. */
  method Run(e: Encoding, steps: seq<Step>) returns (outputs: seq<seq<Value>>)
    requires e.Valid() && e.At() <= |e.Rows()| && Observed(e.Rows(), e.At(), steps).Some?
    modifies e.Repr()
    ensures e.Valid() && Observed(e.Rows(), old(e.At()), steps) == Some(outputs)
  {
    hide Encoding.Valid, Encoding.At, Encoding.Rows;
    outputs := [];
    assert steps[0..] == steps;
    ghost var whole := Observed(e.Rows(), e.At(), steps);
    assert [] + whole.value == whole.value;
    for i := 0 to |steps|
      invariant e.Valid() && e.At() <= |e.Rows()|
      invariant Observed(e.Rows(), e.At(), steps[i..]).Some?
      invariant whole == Some(outputs + Observed(e.Rows(), e.At(), steps[i..]).value)
    {
      ghost var rest := steps[i..];
      assert rest[0] == steps[i] && rest[1..] == steps[i + 1..];
      ghost var before, at := outputs, e.At();
      match steps[i] {
        case Read(n) =>
          var output := e.Materialize(n);
          outputs := outputs + [output];
        case Skipping(n) => e.Skip(n);
        case Restart => e.Reset();
      }
      ghost var tail := Observed(e.Rows(), e.At(), steps[i + 1..]).value;
      if steps[i].Read? {
        assert before + ([e.Rows()[at..e.At()]] + tail) == outputs + tail;
      }
    }
    assert steps[|steps|..] == [] && outputs + [] == outputs;
  }
}
