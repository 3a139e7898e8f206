/**
  The serialized form of an encoding, as a reference definition: `Denote` says which column of values
  a string of bytes stands for, level by level, without any cursor.  The encoder is proved to produce
  bytes that denote its input, the decoder to read out what its bytes denote.
 */
module Format {
  import opened Wrappers
  import opened BitMath
  import opened FixedBitArrays
  import opened Sequences
  import Varints

  // ----- types and values

  datatype DataType =
    | Int8 | Uint8 | Int16 | Uint16 | Int32 | Uint32 | Int64 | Uint64 | Float | Double | Bool | String
  {
    function Code(): Byte
    {
      match this
      case Int8 => 1 case Uint8 => 2 case Int16 => 3 case Uint16 => 4
      case Int32 => 5 case Uint32 => 6 case Int64 => 7 case Uint64 => 8
      case Float => 9 case Double => 10 case Bool => 11 case String => 12
    }

    predicate IsNumeric()
    {
      this != Bool && this != String
    }

    /** sizeof(physicalType) */
    function Size(): nat
    {
      match this
      case Int8 | Uint8 => 1
      case Int16 | Uint16 => 2
      case Int32 | Uint32 | Float => 4
      case Int64 | Uint64 | Double => 8
      case Bool | String => 0
    }

    /** The type whose bits the encodings work on. */
    function Physical(): DataType
    {
      match this
      case Int8 | Uint8 => Uint8
      case Int16 | Uint16 => Uint16
      case Int32 | Uint32 | Float => Uint32
      case Int64 | Uint64 | Double => Uint64
      case Bool => Bool
      case String => String
    }
  }

  function TypeOf(code: Byte): Option<DataType>
  {
    match code
    case 1 => Some(Int8) case 2 => Some(Uint8) case 3 => Some(Int16) case 4 => Some(Uint16)
    case 5 => Some(Int32) case 6 => Some(Uint32) case 7 => Some(Int64) case 8 => Some(Uint64)
    case 9 => Some(Float) case 10 => Some(Double) case 11 => Some(Bool) case 12 => Some(String)
    case _ => None
  }

  const TRIVIAL: Byte := 0
  const RLE: Byte := 1
  const DICTIONARY: Byte := 2
  const FIXED_BIT_WIDTH: Byte := 3
  const NULLABLE: Byte := 5
  const SPARSE_BOOL: Byte := 6
  const VARINT: Byte := 7
  const CONSTANT: Byte := 9
  const MAINLY_CONSTANT: Byte := 10

  const PREFIX_SIZE := 6

  /** A row in its physical type. */
  datatype Value = Num(n: nat) | Flag(b: bool) | Str(chars: seq<Byte>)

  predicate HasType(v: Value, dt: DataType)
  {
    match v
    case Num(n) => dt.IsNumeric() && Fits(n, 8 * dt.Size())
    case Flag(_) => dt == Bool
    case Str(_) => dt == String
  }

  /** `physicalType()`, what a null row materializes as. */
  function Default(dt: DataType): Value
  {
    if dt == Bool then Flag(false) else if dt == String then Str([]) else Num(0)
  }

  /** The rows of a column; `present` is false exactly at its null rows. */
  datatype Column = Column(dt: DataType, values: seq<Value>, present: seq<bool>)

  function NonNull(dt: DataType, values: seq<Value>): Column
  {
    Column(dt, values, Repeat(true, |values|))
  }

  /** The compressors are external: decompression is some function of the compression byte and the data. */
  type Unpacker = (Byte, seq<Byte>) -> seq<Byte>

  function Unpack(z: Unpacker, compression: Byte, data: seq<Byte>): seq<Byte>
  {
    if compression == 0 then data else z(compression, data)
  }

  // ----- encoding primitives

  function LeBytes(n: nat, count: nat): (b: seq<Byte>)
    ensures |b| == count
  {
    if count == 0 then [] else [n % 256] + LeBytes(n / 256, count - 1)
  }

  lemma {:induction false} LeBytesRead(n: nat, count: nat)
    requires Fits(n, 8 * count)
    ensures LeNat(LeBytes(n, count)) == n
  {
    if count > 0 {
      assert Pow2(8 * count) == 256 * Pow2(8 * (count - 1)) by { PowEight(8 * (count - 1)); }
      LeBytesRead(n / 256, count - 1);
      assert LeBytes(n, count)[1..] == LeBytes(n / 256, count - 1);
    }
  }

  lemma {:induction false} LeNatFits(b: seq<Byte>)
    ensures Fits(LeNat(b), 8 * |b|)
  {
    if b != [] {
      PowEight(8 * (|b| - 1));
      LeNatFits(b[1..]);
    }
  }

  lemma PowEight(k: nat)
    ensures Pow2(k + 8) == 256 * Pow2(k)
  {
    assert Pow2(k + 2) == 4 * Pow2(k);
    assert Pow2(k + 4) == 4 * Pow2(k + 2);
    assert Pow2(k + 6) == 4 * Pow2(k + 4);
    assert Pow2(k + 8) == 4 * Pow2(k + 6);
  }

  lemma WordSizes()
    ensures Pow2(8) == 0x100 && Pow2(16) == 0x1_0000 && Pow2(32) == 0x1_0000_0000
  {
    PowEight(8);
    PowEight(16);
    PowEight(24);
  }

  function U32(n: nat): (b: seq<Byte>)
    ensures |b| == 4
  {
    LeBytes(n, 4)
  }

  /** A 4-byte length and that many bytes: the pieces of a stream and what follows it. */
  function ReadString(b: seq<Byte>): Option<(seq<Byte>, seq<Byte>)>
  {
    if |b| < 4 || 4 + LeNat(b[..4]) > |b| then None
    else Some((b[4..4 + LeNat(b[..4])], b[4 + LeNat(b[..4])..]))
  }

  function WriteString(s: seq<Byte>): (b: seq<Byte>)
    ensures |b| == 4 + |s|
  {
    U32(|s|) + s
  }

  lemma ReadWrittenString(s: seq<Byte>, rest: seq<Byte>)
    requires |s| < 0x1_0000_0000
    ensures ReadString(WriteString(s) + rest) == Some((s, rest))
  {
    var b := WriteString(s) + rest;
    WordSizes();
    LeBytesRead(|s|, 4);
    assert b[..4] == U32(|s|);
    assert b[4..4 + |s|] == s && b[4 + |s|..] == rest;
  }

  /** One datum of type `dt`, and what follows it. */
  function ReadValue(dt: DataType, b: seq<Byte>): Option<(Value, seq<Byte>)>
  {
    if dt == String then
      match ReadString(b)
      case None => None
      case Some((s, rest)) => Some((Str(s), rest))
    else if dt == Bool then
      if |b| < 1 then None else Some((Flag(b[0] != 0), b[1..]))
    else if |b| < dt.Size() then None
    else Some((Num(LeNat(b[..dt.Size()])), b[dt.Size()..]))
  }

  function WriteValue(v: Value, dt: DataType): seq<Byte>
  {
    match v
    case Num(n) => LeBytes(n, dt.Size())
    case Flag(b) => [if b then 1 else 0]
    case Str(s) => WriteString(s)
  }

  lemma ReadWrittenValue(v: Value, dt: DataType, rest: seq<Byte>)
    requires HasType(v, dt) && |WriteValue(v, dt)| < 0x1_0000_0000
    ensures ReadValue(dt, WriteValue(v, dt) + rest) == Some((v, rest))
  {
    var b := WriteValue(v, dt) + rest;
    match v {
      case Num(n) =>
        LeBytesRead(n, dt.Size());
        assert b[..dt.Size()] == LeBytes(n, dt.Size()) && b[dt.Size()..] == rest;
      case Flag(f) => assert b[1..] == rest;
      case Str(s) => ReadWrittenString(s, rest);
    }
  }

  // ----- how child streams combine

  /** The run values of a bool column alternate. */
  function Alternating(first: bool, n: nat): (r: seq<Value>)
    ensures |r| == n
  {
    seq(n, i => Flag(first == (i % 2 == 0)))
  }

  /** The blob cut into strings of the given lengths. */
  function Cut(blob: seq<Byte>, lengths: seq<nat>): (r: seq<Value>)
    requires Sum(lengths) <= |blob|
    ensures |r| == |lengths|
  {
    if lengths == [] then [] else [Str(blob[..lengths[0]])] + Cut(blob[lengths[0]..], lengths[1..])
  }

  function Nat(v: Value): nat
  {
    if v.Num? then v.n else 0
  }

  predicate IsSet(v: Value)
  {
    v.Flag? && v.b
  }

  lemma {:induction false} CutAt(blob: seq<Byte>, lengths: seq<nat>, k: nat)
    requires Sum(lengths) <= |blob| && k < |lengths|
    ensures Sum(lengths[..k]) + lengths[k] <= |blob|
    ensures Cut(blob, lengths)[k] == Str(blob[Sum(lengths[..k])..Sum(lengths[..k]) + lengths[k]])
  {
    SumNext(lengths, k);
    if k > 0 {
      assert lengths[..k][1..] == lengths[1..][..k - 1];
      CutAt(blob[lengths[0]..], lengths[1..], k - 1);
    }
  }

  /** The rows of `values` as numbers or flags. */
  function Nats(values: seq<Value>): (r: seq<nat>)
    ensures |r| == |values|
  {
    seq<nat>(|values|, i requires 0 <= i < |values| => Nat(values[i]))
  }

  function Flags(values: seq<Value>): (r: seq<bool>)
    ensures |r| == |values|
  {
    seq(|values|, i requires 0 <= i < |values| => IsSet(values[i]))
  }

  lemma NatsSlice(values: seq<Value>, i: nat, j: nat)
    requires i <= j <= |values|
    ensures Nats(values[i..j]) == Nats(values)[i..j]
  {
  }

  lemma FlagsSlice(values: seq<Value>, i: nat, j: nat)
    requires i <= j <= |values|
    ensures Flags(values[i..j]) == Flags(values)[i..j]
  {
  }

  function Nums(numbers: seq<nat>): (r: seq<Value>)
    ensures |r| == |numbers|
  {
    seq(|numbers|, i requires 0 <= i < |numbers| => Num(numbers[i]))
  }

  predicate IsColumn(c: Option<Column>, dt: DataType, n: nat)
  {
    c.Some? && c.value.dt == dt && |c.value.values| == n && forall v :: v in c.value.values ==> HasType(v, dt)
  }

  // ----- the reference definition

  function Denote(z: Unpacker, d: seq<Byte>): Option<Column>
    decreases |d|, 1
  {
    if |d| < PREFIX_SIZE || TypeOf(d[1]).None? then None
    else
      var dt, n, body := TypeOf(d[1]).value, LeNat(d[2..6]), d[PREFIX_SIZE..];
      match d[0]
      case 0 => DenoteTrivial(z, dt, n, body)
      case 1 => DenoteRle(z, dt, n, body)
      case 2 => DenoteDictionary(z, dt, n, body)
      case 3 => DenoteFixedBitWidth(z, dt, n, body)
      case 5 => DenoteNullable(z, dt, n, body)
      case 6 => DenoteSparseBool(z, dt, n, body)
      case 7 => DenoteVarint(dt, n, body)
      case 9 => DenoteConstant(dt, n, body)
      case 10 => DenoteMainlyConstant(z, dt, n, body)
      case _ => None
  }

  function DenoteTrivial(z: Unpacker, dt: DataType, n: nat, body: seq<Byte>): Option<Column>
    decreases |body|, 2
  {
    if |body| < 1 then None
    else if dt == String then
      match ReadString(body[1..])
      case None => None
      case Some((lengthBytes, blobBytes)) =>
        var lengths := Denote(z, lengthBytes);
        var blob := Unpack(z, body[0], blobBytes);
        if IsColumn(lengths, Uint32, n) && Sum(Nats(lengths.value.values)) <= |blob| < 0x1_0000_0000
        then Some(NonNull(String, Cut(blob, Nats(lengths.value.values))))
        else None
    else
      var raw := Unpack(z, body[0], body[1..]);
      if dt == Bool then
        if |raw| == BufferSize(n, 1) then Some(NonNull(Bool, Bits(raw, n))) else None
      else if |raw| == n * dt.Size() then Some(NonNull(dt, Numbers(raw, dt.Size(), n)))
      else None
  }

  function Bits(raw: seq<Byte>, n: nat): (r: seq<Value>)
    ensures |r| == n
  {
    seq(n, (i: nat) => Flag(BufBit(raw, i)))
  }

  function Numbers(raw: seq<Byte>, size: nat, n: nat): (r: seq<Value>)
    requires |raw| == n * size
    ensures |r| == n
  {
    if n == 0 then [] else NextNumber(n, size); [Num(LeNat(raw[..size]))] + Numbers(raw[size..], size, n - 1)
  }

  lemma NextNumber(n: nat, size: nat)
    requires n > 0
    ensures size <= n * size && n * size - size == (n - 1) * size
  {
  }

  function DenoteRle(z: Unpacker, dt: DataType, n: nat, body: seq<Byte>): Option<Column>
    decreases |body|, 2
  {
    match ReadString(body)
    case None => None
    case Some((lengthBytes, rest)) =>
      var lengths := Denote(z, lengthBytes);
      if lengths.None? || !IsColumn(lengths, Uint32, |lengths.value.values|) then None
      else
        var runs := Nats(lengths.value.values);
        if Sum(runs) != n then None
        else if dt == Bool then
          if |rest| == 1 then Some(NonNull(Bool, Expand(runs, Alternating(rest[0] != 0, |runs|)))) else None
        else
          var values := Denote(z, rest);
          if IsColumn(values, dt.Physical(), |runs|)
          then Some(NonNull(dt, Expand(runs, values.value.values)))
          else None
  }

  function DenoteDictionary(z: Unpacker, dt: DataType, n: nat, body: seq<Byte>): Option<Column>
    decreases |body|, 2
  {
    match ReadString(body)
    case None => None
    case Some((alphabetBytes, rest)) =>
      var alphabet, indices := Denote(z, alphabetBytes), Denote(z, rest);
      if dt != Bool && alphabet.Some? && IsColumn(alphabet, dt.Physical(), |alphabet.value.values|)
        && IsColumn(indices, Uint32, n)
        && InRange(Nats(indices.value.values), |alphabet.value.values|)
      then Some(NonNull(dt, Lookup(alphabet.value.values, Nats(indices.value.values))))
      else None
  }

  predicate InRange(indices: seq<nat>, size: nat)
  {
    forall k :: 0 <= k < |indices| ==> indices[k] < size
  }

  function Lookup(alphabet: seq<Value>, indices: seq<nat>): (r: seq<Value>)
    requires InRange(indices, |alphabet|)
    ensures |r| == |indices|
  {
    seq(|indices|, i requires 0 <= i < |indices| => alphabet[indices[i]])
  }

  function DenoteFixedBitWidth(z: Unpacker, dt: DataType, n: nat, body: seq<Byte>): Option<Column>
    decreases |body|, 2
  {
    if !dt.IsNumeric() || |body| < 2 + dt.Size() then None
    else
      var baseline, w := LeNat(body[1..1 + dt.Size()]), body[1 + dt.Size()];
      var raw := Unpack(z, body[0], body[2 + dt.Size()..]);
      if 1 <= w <= 8 * dt.Size() && BufferSize(n, w) <= |raw|
      then Some(NonNull(dt, Packed(raw, w, baseline, 8 * dt.Size(), n)))
      else None
  }

  function Packed(raw: seq<Byte>, w: nat, baseline: nat, bits: nat, n: nat): (r: seq<Value>)
    ensures |r| == n
  {
    seq(n, (i: nat) => Num(Wrapped(Slot(raw, w, i) + baseline, bits)))
  }

  /** The values of a nullable column: a null row holds the default value. */
  function DenoteNullable(z: Unpacker, dt: DataType, n: nat, body: seq<Byte>): Option<Column>
    decreases |body|, 2
  {
    match ReadString(body)
    case None => None
    case Some((valueBytes, nullBytes)) =>
      var values, nulls := Denote(z, valueBytes), Denote(z, nullBytes);
      if IsColumn(nulls, Bool, n) && IsColumn(values, dt.Physical(), CountTrue(Flags(nulls.value.values)))
      then Some(NullableColumn(dt, Flags(nulls.value.values), values.value.values))
      else None
  }

  function NullableColumn(dt: DataType, present: seq<bool>, values: seq<Value>): (c: Column)
    requires |values| == CountTrue(present)
  {
    Column(dt, Merge(present, values, Repeat(Default(dt), |present| - |values|)), present)
  }

  /** `indices` ascend and end in the sentinel `n`. */
  predicate IndexList(indices: seq<nat>, n: nat)
  {
    && |indices| > 0 && indices[|indices| - 1] == n
    && forall i, j :: 0 <= i < j < |indices| ==> indices[i] < indices[j]
  }

  function DenoteSparseBool(z: Unpacker, dt: DataType, n: nat, body: seq<Byte>): Option<Column>
    decreases |body|, 2
  {
    if dt != Bool || |body| < 1 then None
    else
      var indices := Denote(z, body[1..]);
      if indices.None? || !IsColumn(indices, Uint32, |indices.value.values|)
        || !IndexList(Nats(indices.value.values), n)
      then None
      else Some(NonNull(Bool, Sparse(body[0] != 0, Nats(indices.value.values), n)))
  }

  function Sparse(sparseValue: bool, indices: seq<nat>, n: nat): (r: seq<Value>)
    ensures |r| == n
  {
    seq(n, i => Flag((i in indices) == sparseValue))
  }

  function DenoteVarint(dt: DataType, n: nat, body: seq<Byte>): Option<Column>
  {
    var bits := 8 * dt.Size();
    if !Varints.Width(bits) || |body| < dt.Size() then None
    else
      var baseline, data := LeNat(body[..dt.Size()]), body[dt.Size()..];
      if !Varints.Stream(data, 0, n, bits) then None
      else Some(NonNull(dt, Shifted(Varints.Values(data, 0, n, bits), baseline, bits)))
  }

  function Shifted(values: seq<nat>, baseline: nat, bits: nat): (r: seq<Value>)
    ensures |r| == |values|
  {
    seq(|values|, i requires 0 <= i < |values| => Num(Wrapped(values[i] + baseline, bits)))
  }

  function DenoteConstant(dt: DataType, n: nat, body: seq<Byte>): Option<Column>
  {
    match ReadValue(dt, body)
    case None => None
    case Some((v, rest)) => if rest == [] then Some(NonNull(dt, Repeat(v, n))) else None
  }

  function DenoteMainlyConstant(z: Unpacker, dt: DataType, n: nat, body: seq<Byte>): Option<Column>
    decreases |body|, 2
  {
    match ReadString(body)
    case None => None
    case Some((isCommonBytes, rest)) =>
      match ReadString(rest)
      case None => None
      case Some((otherBytes, last)) =>
        match ReadValue(dt, last)
        case None => None
        case Some((common, end)) =>
          var isCommon, others := Denote(z, isCommonBytes), Denote(z, otherBytes);
          if dt != Bool && end == [] && IsColumn(isCommon, Bool, n)
            && IsColumn(others, dt.Physical(), n - CountTrue(Flags(isCommon.value.values)))
          then
            var flags := Flags(isCommon.value.values);
            Some(NonNull(dt, Merge(flags, Repeat(common, CountTrue(flags)), others.value.values)))
          else None
  }
}
