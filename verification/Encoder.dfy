/**
  Encoding a column along a tree of chosen encodings.  Each level splits its rows into child streams
  and encodes those; the bytes it produces denote the column it was given.
 */
module Encoder {
  import opened Wrappers
  import opened BitMath
  import opened FixedBitArrays
  import opened Sequences
  import opened Format
  import opened Layouts
  import opened Derived
  import Varints
  import Statistics

  /**
    What encoding takes from outside: a compressor that may decline, its inverse, and the order in
    which the hash map of unique values is iterated.  What a compressor accepts takes at most as much room as
    before, and four bytes for the length.
   */
  datatype Codec = Codec(
    pack: (Byte, seq<Byte>) -> Option<seq<Byte>>,
    unpack: Unpacker,
    order: seq<Value> -> seq<Value>)

  ghost predicate Lawful(c: Codec)
  {
    && (forall t: Byte, d: seq<Byte> {:trigger c.pack(t, d)} :: t != 0 && c.pack(t, d).Some? ==>
      c.unpack(t, c.pack(t, d).value) == d && |c.pack(t, d).value| <= |d| + 4)
    && forall values: seq<Value> :: IsOrder(c.order(values), values)
  }

  datatype Encoded = Encoded(bytes: seq<Byte>, layout: Layout)

  /** Row counts and string lengths are 32-bit. */
  predicate WellTyped(dt: DataType, values: seq<Value>)
  {
    && |values| < 0x1_0000_0000 && |Blob(values)| < 0x1_0000_0000
    && forall i :: 0 <= i < |values| ==> HasType(values[i], dt)
  }

  /** The bytes denote the rows, and the layout is the one that can be captured from the bytes. */
  ghost predicate Encodes(c: Codec, e: Encoded, dt: DataType, values: seq<Value>)
  {
    |e.bytes| < 0x1_0000_0000 ==>
      && Denote(c.unpack, e.bytes) == Some(NonNull(dt, values))
      && Capture(e.bytes) == Some(e.layout)
  }

  function Prefix(encoding: Byte, dt: DataType, rowCount: nat): (b: seq<Byte>)
    ensures |b| == PREFIX_SIZE
  {
    [encoding, dt.Code()] + U32(rowCount)
  }

  lemma Framed(encoding: Byte, dt: DataType, rowCount: nat, body: seq<Byte>)
    requires rowCount < 0x1_0000_0000
    ensures
      var d := Prefix(encoding, dt, rowCount) + body;
      && |d| == PREFIX_SIZE + |body| && d[0] == encoding && d[1] == dt.Code() && TypeOf(d[1]) == Some(dt)
      && LeNat(d[2..6]) == rowCount && d[PREFIX_SIZE..] == body
  {
    WordSizes();
    LeBytesRead(rowCount, 4);
    assert (Prefix(encoding, dt, rowCount) + body)[2..6] == U32(rowCount);
  }

  /** Reading past the prefix. */
  lemma BodyDenotes(z: Unpacker, encoding: Byte, dt: DataType, n: nat, body: seq<Byte>)
    requires n < 0x1_0000_0000 && body != []
    ensures Capture(Prefix(encoding, dt, n) + body) == CaptureBody(encoding, dt.Code(), body)
    ensures
      var c := Denote(z, Prefix(encoding, dt, n) + body);
      && (encoding == 0 ==> c == DenoteTrivial(z, dt, n, body))
      && (encoding == 1 ==> c == DenoteRle(z, dt, n, body))
      && (encoding == 2 ==> c == DenoteDictionary(z, dt, n, body))
      && (encoding == 3 ==> c == DenoteFixedBitWidth(z, dt, n, body))
      && (encoding == 5 ==> c == DenoteNullable(z, dt, n, body))
      && (encoding == 6 ==> c == DenoteSparseBool(z, dt, n, body))
      && (encoding == 7 ==> c == DenoteVarint(dt, n, body))
      && (encoding == 9 ==> c == DenoteConstant(dt, n, body))
      && (encoding == 10 ==> c == DenoteMainlyConstant(z, dt, n, body))
  {
    hide DenoteTrivial, DenoteRle, DenoteDictionary, DenoteFixedBitWidth, DenoteNullable, DenoteSparseBool;
    hide DenoteVarint, DenoteConstant, DenoteMainlyConstant, CaptureBody, LeNat, DataType.Code, TypeOf;
    Framed(encoding, dt, n, body);
  }

  /** `CompressionEncoder`: nothing is gained on empty data, and the compressor may decline. */
  function Compressed(c: Codec, compression: Byte, raw: seq<Byte>): (Byte, seq<Byte>)
  {
    if raw == [] || compression == 0 then (0, raw)
    else
      match c.pack(compression, raw)
      case None => (0, raw)
      case Some(packed) => (compression, packed)
  }

  lemma CompressedUnpacks(c: Codec, compression: Byte, raw: seq<Byte>)
    requires Lawful(c)
    ensures Unpack(c.unpack, Compressed(c, compression, raw).0, Compressed(c, compression, raw).1) == raw
    ensures |Compressed(c, compression, raw).1| <= |raw| + 4
  {
  }

  // ----- which choices fit the data

  /** Every level can encode its rows the chosen way, all the way down. */
  ghost predicate Compatible(c: Codec, plan: Layout, dt: DataType, values: seq<Value>)
    decreases plan, 9
  {
    match plan.encoding
    case 0 => dt == String ==> CompatibleChild(c, plan, 0, Uint32, Nums(Lengths(values)))
    case 1 =>
      && CompatibleChild(c, plan, 0, Uint32, Nums(RunsOf(values).lengths))
      && if dt == Bool then values != [] else CompatibleChild(c, plan, 1, dt.Physical(), RunsOf(values).values)
    case 2 =>
      && dt != Bool && values != []
      && CompatibleChild(c, plan, 0, dt.Physical(), c.order(values))
      && CompatibleChild(c, plan, 1, Uint32, Nums(IndicesIn(c.order(values), values)))
    case 3 => dt.IsNumeric() && values != []
    case 6 =>
      && dt == Bool
      && CompatibleChild(c, plan, 0, Uint32, Nums(SparseIndices(Flags(values)) + [|values|]))
    case 7 => (dt.Size() == 4 || dt.Size() == 8) && values != []
    case 9 => values != [] && |c.order(values)| == 1
    case 10 =>
      && dt != Bool && values != [] && c.order(values) != []
      && CompatibleChild(c, plan, 0, Bool, Marks(values, MostCommon(c.order(values), values)))
      && CompatibleChild(c, plan, 1, dt.Physical(), Others(values, MostCommon(c.order(values), values)))
    case _ => false
  }

  ghost predicate CompatibleChild(c: Codec, plan: Layout, k: nat, dt: DataType, values: seq<Value>)
    decreases plan, 8
  {
    k < |plan.children| && CompatibleNested(c, plan.children[k], dt, values)
  }

  ghost predicate CompatibleNested(c: Codec, child: Option<Layout>, dt: DataType, values: seq<Value>)
    decreases child, 7
  {
    match child
    case None => false
    case Some(layout) => Compatible(c, layout, dt, values)
  }

  /** The encodings used are the ones chosen; compression may have been declined. */
  predicate Follows(plan: Layout, used: Layout)
    decreases used
  {
    && used.encoding == plan.encoding && (used.compression == 0 || used.compression == plan.compression)
    && |used.children| <= |plan.children|
    && forall k :: 0 <= k < |used.children| ==> FollowsChild(plan.children[k], used.children[k])
  }

  predicate FollowsChild(plan: Option<Layout>, used: Option<Layout>)
    decreases used
  {
    match used
    case None => false
    case Some(layout) => plan.Some? && Follows(plan.value, layout)
  }

  // ----- what a level stores

  /** Compressed exactly if that is asked for, there is anything to compress, and the compressor takes it. */
  predicate WellPacked(c: Codec, compression: Byte, actual: Byte, data: seq<Byte>)
  {
    var raw := Unpack(c.unpack, actual, data);
    if compression != 0 && raw != [] && c.pack(compression, raw).Some?
    then actual == compression && Some(data) == c.pack(compression, raw)
    else actual == 0
  }

  /** The rows that bytes denote. */
  function RowsOf(c: Codec, b: seq<Byte>): seq<Value>
  {
    if Denote(c.unpack, b).Some? then Denote(c.unpack, b).value.values else []
  }

  predicate AllPositive(lengths: seq<nat>)
  {
    forall i :: 0 <= i < |lengths| ==> lengths[i] > 0
  }

  predicate NeighboursDiffer(values: seq<Value>)
  {
    forall i :: 0 < i < |values| ==> values[i] != values[i - 1]
  }

  predicate IsMinimum(min: nat, numbers: seq<nat>)
  {
    min in numbers && forall i :: 0 <= i < |numbers| ==> min <= numbers[i]
  }

  /** The least positive multiple of 8 bits that the distance of every number from the minimum fits. */
  predicate IsWidth(width: nat, min: nat, numbers: seq<nat>)
  {
    && width > 0 && width % 8 == 0 && (forall i :: 0 <= i < |numbers| ==> numbers[i] - min < Pow2(width))
    && (width == 8 || exists i :: 0 <= i < |numbers| && numbers[i] - min >= Pow2(width - 8))
  }

  /** The number stored at a place of the bytes is the minimum of the rows. */
  predicate BaselineAt(b: seq<Byte>, at: nat, size: nat, values: seq<Value>)
  {
    |b| >= at + size && IsMinimum(LeNat(b[at..at + size]), Nats(values))
  }

  /** So is the baseline here, and the width after it is the least that will do. */
  predicate BaselineAndWidthAt(b: seq<Byte>, at: nat, size: nat, values: seq<Value>)
  {
    BaselineAt(b, at, size, values) && |b| > at + size && IsWidth(b[at + size], LeNat(b[at..at + size]), Nats(values))
  }

  /**
    What is stored is no more than needed, read off the bytes: runs that cannot be joined, an alphabet without
    repetition, the rarer of the flags, the distances from the minimum in the least number of bytes, all but the
    most common value, and data compressed if possible; and so for the nested streams.
   */
  ghost predicate Thrifty(c: Codec, plan: Layout, b: seq<Byte>)
    decreases plan, 9
  {
    && |b| >= PREFIX_SIZE && Denote(c.unpack, b).Some?
    && var dt, values, body := Denote(c.unpack, b).value.dt, RowsOf(c, b), b[PREFIX_SIZE..];
       match b[0]
       case 0 => ThriftyTrivial(c, plan, dt, body)
       case 1 => ThriftyRuns(c, plan, dt, body)
       case 2 => ThriftyDictionary(c, plan, values, body)
       case 3 =>
         && BaselineAndWidthAt(body, 1, dt.Size(), values)
         && WellPacked(c, plan.compression, body[0], body[2 + dt.Size()..])
       case 6 => ThriftyFlags(c, plan, values, body)
       case 7 => BaselineAt(body, 0, dt.Size(), values)
       case 10 => ThriftyMainly(c, plan, dt, values, body)
       case _ => true
  }

  ghost predicate ThriftyTrivial(c: Codec, plan: Layout, dt: DataType, body: seq<Byte>)
    decreases plan, 8
  {
    && |body| >= 1
    && if dt != String then WellPacked(c, plan.compression, body[0], body[1..])
       else
         match ReadString(body[1..])
         case None => false
         case Some((lengths, blob)) =>
           WellPacked(c, plan.compression, body[0], blob) && ThriftyChild(c, plan, 0, lengths)
  }

  ghost predicate ThriftyRuns(c: Codec, plan: Layout, dt: DataType, body: seq<Byte>)
    decreases plan, 8
  {
    match ReadString(body)
    case None => false
    case Some((lengths, values)) =>
      && AllPositive(Nats(RowsOf(c, lengths))) && ThriftyChild(c, plan, 0, lengths)
      && (dt == Bool || (NeighboursDiffer(RowsOf(c, values)) && ThriftyChild(c, plan, 1, values)))
  }

  ghost predicate ThriftyDictionary(c: Codec, plan: Layout, values: seq<Value>, body: seq<Byte>)
    decreases plan, 8
  {
    match ReadString(body)
    case None => false
    case Some((alphabet, indices)) =>
      && IsOrder(RowsOf(c, alphabet), values) && ThriftyChild(c, plan, 0, alphabet) && ThriftyChild(c, plan, 1, indices)
  }

  /** The flags listed, before the sentinel, are no more than half of all, and set ones if just half. */
  ghost predicate ThriftyFlags(c: Codec, plan: Layout, values: seq<Value>, body: seq<Byte>)
    decreases plan, 8
  {
    && |body| >= 1
    && (var listed := |RowsOf(c, body[1..])| - 1;
        0 <= 2 * listed <= |values| && (2 * listed == |values| ==> body[0] == 1))
    && ThriftyChild(c, plan, 0, body[1..])
  }

  ghost predicate ThriftyMainly(c: Codec, plan: Layout, dt: DataType, values: seq<Value>, body: seq<Byte>)
    decreases plan, 8
  {
    match ReadString(body)
    case None => false
    case Some((isCommon, rest)) =>
      match ReadString(rest)
      case None => false
      case Some((others, last)) =>
        && ReadValue(dt, last).Some? && IsMostCommon(c.order(values), values, ReadValue(dt, last).value.0)
        && ThriftyChild(c, plan, 0, isCommon) && ThriftyChild(c, plan, 1, others)
  }

  ghost predicate ThriftyChild(c: Codec, plan: Layout, k: nat, b: seq<Byte>)
    decreases plan, 7
  {
    k < |plan.children| && ThriftyNested(c, plan.children[k], b)
  }

  ghost predicate ThriftyNested(c: Codec, child: Option<Layout>, b: seq<Byte>)
    decreases child, 6
  {
    match child
    case None => false
    case Some(layout) => Thrifty(c, layout, b)
  }

  /** As far as the bytes fit the sizes of the format. */
  ghost predicate IsThrifty(c: Codec, plan: Layout, b: seq<Byte>)
  {
    |b| < 0x1_0000_0000 ==> Thrifty(c, plan, b)
  }

  ghost predicate IsThriftyChild(c: Codec, plan: Layout, k: nat, b: seq<Byte>)
  {
    |b| < 0x1_0000_0000 ==> ThriftyChild(c, plan, k, b)
  }

  lemma CompressedWell(c: Codec, compression: Byte, raw: seq<Byte>)
    requires Lawful(c)
    ensures WellPacked(c, compression, Compressed(c, compression, raw).0, Compressed(c, compression, raw).1)
  {
    CompressedUnpacks(c, compression, raw);
  }

  /** What there is of an encoded level besides the body. */
  lemma LevelParts(c: Codec, encoding: Byte, dt: DataType, values: seq<Value>, layout: Layout, body: seq<Byte>)
    requires |values| < 0x1_0000_0000
    requires Encodes(c, Encoded(Prefix(encoding, dt, |values|) + body, layout), dt, values)
    requires PREFIX_SIZE + |body| < 0x1_0000_0000
    ensures
      var b := Prefix(encoding, dt, |values|) + body;
      && |b| == PREFIX_SIZE + |body| && b[0] == encoding && b[PREFIX_SIZE..] == body
      && Denote(c.unpack, b) == Some(NonNull(dt, values)) && RowsOf(c, b) == values
  {
    hide Denote, Capture;
    Framed(encoding, dt, |values|, body);
  }

  // ----- how many bytes there can be

  /** What one level takes besides its nested streams. */
  function LevelBound(rows: nat, chars: nat): nat
  {
    32 + 10 * rows + chars
  }

  /** No encoding of so many rows, with so many characters in all, along the plan takes more bytes. */
  function SizeBound(plan: Layout, rows: nat, chars: nat): nat
    decreases plan, |plan.children| + 1
  {
    LevelBound(rows, chars) + NestedBound(plan, |plan.children|, rows + 1, chars)
  }

  function NestedBound(plan: Layout, n: nat, rows: nat, chars: nat): nat
    requires n <= |plan.children|
    decreases plan, n
  {
    if n == 0 then 0 else NestedBound(plan, n - 1, rows, chars) + ChildBound(plan.children[n - 1], rows, chars)
  }

  function ChildBound(child: Option<Layout>, rows: nat, chars: nat): nat
    decreases child
  {
    match child
    case None => 0
    case Some(layout) => SizeBound(layout, rows, chars)
  }

  lemma {:induction false} SizeBoundMono(plan: Layout, rows: nat, chars: nat, moreRows: nat, moreChars: nat)
    requires rows <= moreRows && chars <= moreChars
    ensures SizeBound(plan, rows, chars) <= SizeBound(plan, moreRows, moreChars)
    decreases plan, |plan.children| + 1
  {
    NestedBoundMono(plan, |plan.children|, rows + 1, chars, moreRows + 1, moreChars);
  }

  lemma {:induction false} NestedBoundMono(
      plan: Layout, n: nat, rows: nat, chars: nat, moreRows: nat, moreChars: nat)
    requires n <= |plan.children| && rows <= moreRows && chars <= moreChars
    ensures NestedBound(plan, n, rows, chars) <= NestedBound(plan, n, moreRows, moreChars)
    decreases plan, n
  {
    hide LevelBound;
    if n > 0 {
      NestedBoundMono(plan, n - 1, rows, chars, moreRows, moreChars);
      ChildBoundMono(plan.children[n - 1], rows, chars, moreRows, moreChars);
    }
  }

  lemma {:induction false} ChildBoundMono(
      child: Option<Layout>, rows: nat, chars: nat, moreRows: nat, moreChars: nat)
    requires rows <= moreRows && chars <= moreChars
    ensures ChildBound(child, rows, chars) <= ChildBound(child, moreRows, moreChars)
    decreases child
  {
    match child {
      case None =>
      case Some(layout) => SizeBoundMono(layout, rows, chars, moreRows, moreChars);
    }
  }

  lemma {:induction false} ChildWithin(plan: Layout, k: nat, n: nat, rows: nat, chars: nat)
    requires k < n <= |plan.children|
    ensures ChildBound(plan.children[k], rows, chars) <= NestedBound(plan, n, rows, chars)
    ensures k < n - 1 ==>
      ChildBound(plan.children[k], rows, chars) + ChildBound(plan.children[n - 1], rows, chars)
        <= NestedBound(plan, n, rows, chars)
    decreases n
  {
    hide ChildBound;
    if k < n - 1 { ChildWithin(plan, k, n - 1, rows, chars); }
  }

  lemma {:induction false} NestedMore(plan: Layout, m: nat, n: nat, rows: nat, chars: nat)
    requires m <= n <= |plan.children|
    ensures NestedBound(plan, m, rows, chars) <= NestedBound(plan, n, rows, chars)
    decreases n
  {
    hide ChildBound;
    if m < n { NestedMore(plan, m, n - 1, rows, chars); }
  }

  /** The bytes of a nested stream stay within what the plan allows for it. */
  predicate WithinChild(plan: Layout, k: nat, e: Encoded, rows: nat, chars: nat)
  {
    k < |plan.children| && |e.bytes| <= ChildBound(plan.children[k], rows, chars)
  }

  /** One nested stream and what the level adds. */
  lemma OneNested(plan: Layout, e: Encoded, own: nat, rows: nat, chars: nat, childRows: nat, childChars: nat)
    requires WithinChild(plan, 0, e, childRows, childChars) && childRows <= rows + 1 && childChars <= chars
    requires own <= LevelBound(rows, chars)
    ensures own + |e.bytes| <= SizeBound(plan, rows, chars)
  {
    hide LevelBound, ChildBound, NestedBound;
    ChildBoundMono(plan.children[0], childRows, childChars, rows + 1, chars);
    ChildWithin(plan, 0, |plan.children|, rows + 1, chars);
  }

  /** Two nested streams and what the level adds. */
  lemma TwoNested(
      plan: Layout, first: Encoded, second: Encoded, own: nat, rows: nat, chars: nat,
      rows0: nat, chars0: nat, rows1: nat, chars1: nat)
    requires WithinChild(plan, 0, first, rows0, chars0) && rows0 <= rows + 1 && chars0 <= chars
    requires WithinChild(plan, 1, second, rows1, chars1) && rows1 <= rows + 1 && chars1 <= chars
    requires own <= LevelBound(rows, chars)
    ensures own + |first.bytes| + |second.bytes| <= SizeBound(plan, rows, chars)
  {
    hide LevelBound, ChildBound, NestedBound;
    ChildBoundMono(plan.children[0], rows0, chars0, rows + 1, chars);
    ChildBoundMono(plan.children[1], rows1, chars1, rows + 1, chars);
    ChildWithin(plan, 0, 2, rows + 1, chars);
    NestedMore(plan, 2, |plan.children|, rows + 1, chars);
  }

  /** A level that nests nothing. */
  lemma NoneNested(plan: Layout, own: nat, rows: nat, chars: nat)
    requires own <= LevelBound(rows, chars)
    ensures own <= SizeBound(plan, rows, chars)
  {
    hide LevelBound, NestedBound;
  }

  lemma Packable(rows: nat, width: nat)
    requires width <= 64
    ensures BufferSize(rows, width) <= 8 * rows + 8
  {
    MulMono(width, 64, rows);
    var bits := rows * width;
    assert bits == width * rows && BufferSize(rows, width) == BytesRequired(bits) + 7;
    BytesFor(bits, rows);
  }

  lemma BytesFor(bits: nat, rows: nat)
    requires bits <= 64 * rows
    ensures BytesRequired(bits) <= 8 * rows + 1
  {
  }

  lemma NumbersSize(rows: nat, size: nat)
    requires size <= 8
    ensures rows * size <= 8 * rows
  {
  }

  lemma ValueSize(v: Value, dt: DataType)
    ensures |WriteValue(v, dt)| <= 8 + |Chars(v)|
  {
  }

  // ----- encoding

  method Encode(c: Codec, plan: Layout, dt: DataType, values: seq<Value>) returns (r: Result<Encoded>)
    requires Lawful(c) && WellTyped(dt, values)
    ensures r.Ok? <==> Compatible(c, plan, dt, values)
    ensures r.Ok? ==> Encodes(c, r.value, dt, values) && Follows(plan, r.value.layout)
    ensures r.Ok? ==> IsThrifty(c, plan, r.value.bytes)
    ensures r.Ok? ==> |r.value.bytes| <= SizeBound(plan, |values|, |Blob(values)|)
    decreases plan, 9
  {
    match plan.encoding {
      case 0 => r := EncodeTrivial(c, plan, dt, values);
      case 1 => r := EncodeRle(c, plan, dt, values);
      case 2 => r := EncodeDictionary(c, plan, dt, values);
      case 3 => r := EncodeFixedBitWidth(c, plan, dt, values);
      case 6 => r := EncodeSparseBool(c, plan, dt, values);
      case 7 => r := EncodeVarint(c, plan, dt, values);
      case 9 => r := EncodeConstant(c, plan, dt, values);
      case 10 => r := EncodeMainlyConstant(c, plan, dt, values);
      case _ => r := Error;
    }
  }

  method EncodeChild(c: Codec, plan: Layout, k: nat, dt: DataType, values: seq<Value>) returns (r: Result<Encoded>)
    requires Lawful(c) && WellTyped(dt, values)
    ensures r.Ok? <==> CompatibleChild(c, plan, k, dt, values)
    ensures r.Ok? ==> Encodes(c, r.value, dt, values) && WithinChild(plan, k, r.value, |values|, |Blob(values)|)
    ensures r.Ok? ==> FollowsChild(plan.children[k], Some(r.value.layout)) && IsThriftyChild(c, plan, k, r.value.bytes)
    decreases plan, 7, 0
  {
    hide Compatible, Encodes, WellTyped, ThriftyNested;
    if k >= |plan.children| { return Error; }
    r := EncodeNested(c, plan.children[k], dt, values);
  }

  method EncodeNested(c: Codec, child: Option<Layout>, dt: DataType, values: seq<Value>)
    returns (r: Result<Encoded>)
    requires Lawful(c) && WellTyped(dt, values)
    ensures r.Ok? <==> CompatibleNested(c, child, dt, values)
    ensures r.Ok? ==> Encodes(c, r.value, dt, values) && FollowsChild(child, Some(r.value.layout))
    ensures r.Ok? ==> |r.value.bytes| <= ChildBound(child, |values|, |Blob(values)|)
    ensures r.Ok? && |r.value.bytes| < 0x1_0000_0000 ==> ThriftyNested(c, child, r.value.bytes)
    decreases child, 7
  {
    hide Compatible, Encodes, WellTyped, Thrifty;
    match child {
      case None => r := Error;
      case Some(layout) => r := Encode(c, layout, dt, values);
    }
  }

  // ----- child streams are well typed

  lemma NumsTyped(numbers: seq<nat>)
    requires |numbers| < 0x1_0000_0000 && forall i :: 0 <= i < |numbers| ==> numbers[i] < 0x1_0000_0000
    ensures WellTyped(Uint32, Nums(numbers))
  {
    WordSizes();
    NoChars(Nums(numbers));
  }

  lemma PhysicalTyped(dt: DataType, values: seq<Value>)
    requires WellTyped(dt, values)
    ensures WellTyped(dt.Physical(), values)
  {
  }

  /** Rows drawn from others are as well typed as they are. */
  lemma SubsetTyped(dt: DataType, values: seq<Value>, part: seq<Value>)
    requires WellTyped(dt, values) && |part| <= |values| && |Blob(part)| <= |Blob(values)|
    requires forall v :: v in part ==> v in values
    ensures WellTyped(dt.Physical(), part)
  {
    forall i | 0 <= i < |part| ensures HasType(part[i], dt) { assert part[i] in values; }
  }

  // ----- Trivial

  function TrivialEncoded(c: Codec, compression: Byte, dt: DataType, rowCount: nat, raw: seq<Byte>): Encoded
  {
    var (actual, data) := Compressed(c, compression, raw);
    Encoded(Prefix(0, dt, rowCount) + ([actual] + data), Layout(0, actual, []))
  }

  lemma TrivialDenotes(c: Codec, compression: Byte, dt: DataType, raw: seq<Byte>, values: seq<Value>)
    requires Lawful(c) && dt != String && |values| < 0x1_0000_0000
    requires
      if dt == Bool then |raw| == BufferSize(|values|, 1) && Bits(raw, |values|) == values
      else |raw| == |values| * dt.Size() && Numbers(raw, dt.Size(), |values|) == values
    ensures Encodes(c, TrivialEncoded(c, compression, dt, |values|, raw), dt, values)
  {
    hide Bits, Numbers, BufferSize, Compressed, Lawful, Denote, Capture, DenoteTrivial, CaptureBody, DataType.Size;
    var (actual, data) := Compressed(c, compression, raw);
    var body := [actual] + data;
    BodyDenotes(c.unpack, 0, dt, |values|, body);
    CompressedUnpacks(c, compression, raw);
    assert body[1..] == data;
    TrivialBody(c.unpack, dt, body, raw, values);
  }

  lemma TrivialBody(z: Unpacker, dt: DataType, body: seq<Byte>, raw: seq<Byte>, values: seq<Value>)
    requires dt != String && body != [] && raw == Unpack(z, body[0], body[1..])
    requires
      if dt == Bool then |raw| == BufferSize(|values|, 1) && Bits(raw, |values|) == values
      else |raw| == |values| * dt.Size() && Numbers(raw, dt.Size(), |values|) == values
    ensures DenoteTrivial(z, dt, |values|, body) == Some(NonNull(dt, values))
    ensures CaptureBody(0, dt.Code(), body) == Some(Layout(0, body[0], []))
  {
    hide Bits, Numbers, BufferSize, Denote, Capture, DataType.Size, Unpack;
  }

  lemma TrivialSize(c: Codec, plan: Layout, dt: DataType, rows: nat, raw: seq<Byte>, chars: nat)
    requires Lawful(c) && |raw| <= 8 * rows + 8
    ensures |TrivialEncoded(c, plan.compression, dt, rows, raw).bytes| <= SizeBound(plan, rows, chars)
  {
    hide Compressed, Lawful, SizeBound;
    CompressedUnpacks(c, plan.compression, raw);
    NoneNested(plan, |TrivialEncoded(c, plan.compression, dt, rows, raw).bytes|, rows, chars);
  }

  lemma TrivialThrifty(c: Codec, plan: Layout, dt: DataType, raw: seq<Byte>, values: seq<Value>)
    requires Lawful(c) && dt != String && |values| < 0x1_0000_0000
    requires Encodes(c, TrivialEncoded(c, plan.compression, dt, |values|, raw), dt, values)
    ensures IsThrifty(c, plan, TrivialEncoded(c, plan.compression, dt, |values|, raw).bytes)
  {
    hide Encodes, Lawful, Compressed, WellPacked, Denote, RowsOf;
    var e := TrivialEncoded(c, plan.compression, dt, |values|, raw);
    if |e.bytes| < 0x1_0000_0000 {
      var (actual, data) := Compressed(c, plan.compression, raw);
      LevelParts(c, 0, dt, values, e.layout, [actual] + data);
      CompressedWell(c, plan.compression, raw);
      assert ([actual] + data)[1..] == data;
      assert ThriftyTrivial(c, plan, dt, [actual] + data);
    }
  }

  method EncodeTrivial(c: Codec, plan: Layout, dt: DataType, values: seq<Value>) returns (r: Result<Encoded>)
    requires Lawful(c) && WellTyped(dt, values) && plan.encoding == 0
    ensures r.Ok? <==> Compatible(c, plan, dt, values)
    ensures r.Ok? ==> Encodes(c, r.value, dt, values) && Follows(plan, r.value.layout)
    ensures r.Ok? ==> IsThrifty(c, plan, r.value.bytes)
    ensures r.Ok? ==> |r.value.bytes| <= SizeBound(plan, |values|, |Blob(values)|)
    decreases plan, 8
  {
    hide Encodes, CompatibleChild, Lawful, SizeBound, Blob, IsThrifty;
    if dt == String {
      r := EncodeStrings(c, plan, values);
    } else if dt == Bool {
      var bitmap := PackFlags(values);
      assert Bits(bitmap, |values|) == values;
      TrivialDenotes(c, plan.compression, dt, bitmap, values);
      TrivialThrifty(c, plan, dt, bitmap, values);
      Packable(|values|, 1);
      TrivialSize(c, plan, dt, |values|, bitmap, |Blob(values)|);
      r := Ok(TrivialEncoded(c, plan.compression, dt, |values|, bitmap));
    } else {
      NumbersOfBytes(values, dt.Size());
      TrivialDenotes(c, plan.compression, dt, NumberBytes(values, dt.Size()), values);
      TrivialThrifty(c, plan, dt, NumberBytes(values, dt.Size()), values);
      NumbersSize(|values|, dt.Size());
      TrivialSize(c, plan, dt, |values|, NumberBytes(values, dt.Size()), |Blob(values)|);
      r := Ok(TrivialEncoded(c, plan.compression, dt, |values|, NumberBytes(values, dt.Size())));
    }
  }

  method EncodeStrings(c: Codec, plan: Layout, values: seq<Value>) returns (r: Result<Encoded>)
    requires Lawful(c) && WellTyped(String, values)
    ensures r.Ok? <==> CompatibleChild(c, plan, 0, Uint32, Nums(Lengths(values)))
    ensures r.Ok? ==> Encodes(c, r.value, String, values)
    ensures r.Ok? ==> plan.encoding == 0 ==> Follows(plan, r.value.layout)
    ensures r.Ok? && plan.encoding == 0 ==> IsThrifty(c, plan, r.value.bytes)
    ensures r.Ok? ==> |r.value.bytes| <= SizeBound(plan, |values|, |Blob(values)|)
    decreases plan, 7, 1
  {
    hide Encodes, CompatibleChild, Lawful, SizeBound, ChildBound, Blob, IsThrifty, IsThriftyChild;
    var lengths, blob := SplitStrings(values);
    forall i | 0 <= i < |lengths| ensures lengths[i] < 0x1_0000_0000 { LengthBound(values, i); }
    NumsTyped(lengths);
    var child := EncodeChild(c, plan, 0, Uint32, Nums(lengths));
    if child.Error? { return Error; }
    StringsDenote(c, plan.compression, values, child.value);
    StringsSize(c, plan, values, child.value);
    StringsThrifty(c, plan, values, child.value);
    r := Ok(StringsEncoded(c, plan.compression, |values|, child.value, blob));
  }

  function StringsEncoded(c: Codec, compression: Byte, rowCount: nat, lengths: Encoded, blob: seq<Byte>): Encoded
  {
    var (actual, data) := Compressed(c, compression, blob);
    Encoded(Prefix(0, String, rowCount) + ([actual] + (WriteString(lengths.bytes) + data)),
            Layout(0, actual, [Some(lengths.layout)]))
  }

  lemma StringsThrifty(c: Codec, plan: Layout, values: seq<Value>, lengths: Encoded)
    requires Lawful(c) && |values| < 0x1_0000_0000 && IsThriftyChild(c, plan, 0, lengths.bytes)
    requires Encodes(c, StringsEncoded(c, plan.compression, |values|, lengths, Blob(values)), String, values)
    ensures IsThrifty(c, plan, StringsEncoded(c, plan.compression, |values|, lengths, Blob(values)).bytes)
  {
    hide Encodes, Lawful, Compressed, WellPacked, Denote, RowsOf, WriteString, Prefix, Blob, ThriftyChild, Thrifty;
    var e := StringsEncoded(c, plan.compression, |values|, lengths, Blob(values));
    var (actual, data) := Compressed(c, plan.compression, Blob(values));
    var body := [actual] + (WriteString(lengths.bytes) + data);
    if |Prefix(0, String, |values|) + body| < 0x1_0000_0000 {
      LevelParts(c, 0, String, values, e.layout, body);
      CompressedWell(c, plan.compression, Blob(values));
      StringsBodyThrifty(c, plan, Prefix(0, String, |values|) + body, values, lengths.bytes, actual, data);
    }
  }

  lemma StringsBodyThrifty(
      c: Codec, plan: Layout, b: seq<Byte>, values: seq<Value>, lengths: seq<Byte>, actual: Byte, data: seq<Byte>)
    requires |b| >= PREFIX_SIZE && b[0] == 0 && b[PREFIX_SIZE..] == [actual] + (WriteString(lengths) + data)
    requires Denote(c.unpack, b) == Some(NonNull(String, values)) && |lengths| < 0x1_0000_0000
    requires WellPacked(c, plan.compression, actual, data) && ThriftyChild(c, plan, 0, lengths)
    ensures Thrifty(c, plan, b)
  {
    hide WellPacked, Denote, RowsOf, ReadString, WriteString, ThriftyChild;
    var body := b[PREFIX_SIZE..];
    assert body[1..] == WriteString(lengths) + data;
    ReadWrittenString(lengths, data);
    assert ThriftyTrivial(c, plan, String, body);
  }

  lemma StringsSize(c: Codec, plan: Layout, values: seq<Value>, lengths: Encoded)
    requires Lawful(c) && WithinChild(plan, 0, lengths, |values|, |Blob(Nums(Lengths(values)))|)
    ensures
      |StringsEncoded(c, plan.compression, |values|, lengths, Blob(values)).bytes|
        <= SizeBound(plan, |values|, |Blob(values)|)
  {
    hide Compressed, Lawful, SizeBound, Blob, ChildBound;
    CompressedUnpacks(c, plan.compression, Blob(values));
    NoChars(Nums(Lengths(values)));
    var own := |StringsEncoded(c, plan.compression, |values|, lengths, Blob(values)).bytes| - |lengths.bytes|;
    OneNested(plan, lengths, own, |values|, |Blob(values)|, |values|, 0);
  }

  lemma StringsDenote(c: Codec, compression: Byte, values: seq<Value>, lengths: Encoded)
    requires Lawful(c) && WellTyped(String, values) && Encodes(c, lengths, Uint32, Nums(Lengths(values)))
    ensures Encodes(c, StringsEncoded(c, compression, |values|, lengths, Blob(values)), String, values)
  {
    hide Compressed, Lawful, Blob, Cut, Denote, Capture, ReadString, Lengths, Nats, Sum, Nums, WriteString;
    hide DenoteTrivial, DenoteRle, DenoteDictionary, DenoteFixedBitWidth, DenoteNullable, DenoteSparseBool;
    hide DenoteVarint, DenoteConstant, DenoteMainlyConstant, CaptureBody, IsColumn, HasType;
    var (actual, data) := Compressed(c, compression, Blob(values));
    var e := StringsEncoded(c, compression, |values|, lengths, Blob(values));
    if |e.bytes| < 0x1_0000_0000 {
      var body := [actual] + (WriteString(lengths.bytes) + data);
      BodyDenotes(c.unpack, 0, String, |values|, body);
      CompressedUnpacks(c, compression, Blob(values));
      LengthsTyped(values);
      TypedColumn(Uint32, Nums(Lengths(values)));
      StringsBody(c.unpack, values, lengths, actual, data);
    }
  }

  /** What the body of a level of strings denotes, given what its lengths do. */
  lemma StringsBody(z: Unpacker, values: seq<Value>, lengths: Encoded, actual: Byte, data: seq<Byte>)
    requires WellTyped(String, values) && |lengths.bytes| < 0x1_0000_0000 && Unpack(z, actual, data) == Blob(values)
    requires Denote(z, lengths.bytes) == Some(NonNull(Uint32, Nums(Lengths(values))))
    requires IsColumn(Denote(z, lengths.bytes), Uint32, |values|) && Capture(lengths.bytes) == Some(lengths.layout)
    ensures
      var body := [actual] + (WriteString(lengths.bytes) + data);
      && DenoteTrivial(z, String, |values|, body) == Some(NonNull(String, values))
      && CaptureBody(0, String.Code(), body) == Some(Layout(0, actual, [Some(lengths.layout)]))
  {
    hide Blob, Cut, Denote, Capture, ReadString, Lengths, Nats, Sum, Nums, WriteString, IsColumn, Unpack;
    var body := [actual] + (WriteString(lengths.bytes) + data);
    assert body[1..] == WriteString(lengths.bytes) + data;
    ReadWrittenString(lengths.bytes, data);
    NatsOfNums(Lengths(values));
    CutBlob(values);
  }

  lemma NatsOfNums(numbers: seq<nat>)
    ensures Nats(Nums(numbers)) == numbers
  {
  }

  lemma LengthsTyped(values: seq<Value>)
    requires WellTyped(String, values)
    ensures WellTyped(Uint32, Nums(Lengths(values)))
  {
    var lengths := Lengths(values);
    forall i | 0 <= i < |lengths| ensures lengths[i] < 0x1_0000_0000 { LengthBound(values, i); }
    NumsTyped(lengths);
  }

  lemma TypedColumn(dt: DataType, values: seq<Value>)
    requires WellTyped(dt, values)
    ensures IsColumn(Some(NonNull(dt, values)), dt, |values|)
  {
  }

  // ----- RLE

  function RleEncoded(dt: DataType, rowCount: nat, lengths: Encoded, values: seq<Byte>, children: seq<Option<Layout>>)
    : Encoded
  {
    Encoded(Prefix(1, dt, rowCount) + (WriteString(lengths.bytes) + values),
            Layout(1, 0, [Some(lengths.layout)] + children))
  }

  method EncodeRle(c: Codec, plan: Layout, dt: DataType, values: seq<Value>) returns (r: Result<Encoded>)
    requires Lawful(c) && WellTyped(dt, values) && plan.encoding == 1
    ensures r.Ok? <==> Compatible(c, plan, dt, values)
    ensures r.Ok? ==> Encodes(c, r.value, dt, values) && Follows(plan, r.value.layout)
    ensures r.Ok? ==> IsThrifty(c, plan, r.value.bytes)
    ensures r.Ok? ==> |r.value.bytes| <= SizeBound(plan, |values|, |Blob(values)|)
    decreases plan, 8
  {
    hide CompatibleChild, Lawful, RunsOf, SizeBound, ChildBound, Blob, IsThrifty, ThriftyChild, Denote, Capture;
    var runLengths, runValues := ComputeRuns(values);
    RunsTyped(dt, values);
    var lengths := EncodeChild(c, plan, 0, Uint32, Nums(runLengths));
    if lengths.Error? { return Error; }
    if dt == Bool {
      // The first run value is read even when there is none.
      if values == [] { return Error; }
      var first := if IsSet(runValues[0]) then 1 else 0;
      BoolRunsDenote(c, values, lengths.value);
      RleThrifty(c, plan, dt, values, lengths.value, [first], []);
      RleSize(plan, dt, values, lengths.value, None);
      r := Ok(RleEncoded(dt, |values|, lengths.value, [first], []));
    } else {
      var stored := EncodeChild(c, plan, 1, dt.Physical(), runValues);
      if stored.Error? { return Error; }
      RunsDenote(c, dt, values, lengths.value, stored.value);
      RleThrifty(c, plan, dt, values, lengths.value, stored.value.bytes, [Some(stored.value.layout)]);
      RleSize(plan, dt, values, lengths.value, Some(stored.value));
      r := Ok(RleEncoded(dt, |values|, lengths.value, stored.value.bytes, [Some(stored.value.layout)]));
    }
  }

  lemma RleThrifty(
      c: Codec, plan: Layout, dt: DataType, values: seq<Value>, lengths: Encoded, rest: seq<Byte>,
      children: seq<Option<Layout>>)
    requires |values| < 0x1_0000_0000
    requires Encodes(c, RleEncoded(dt, |values|, lengths, rest, children), dt, values)
    requires Encodes(c, lengths, Uint32, Nums(RunsOf(values).lengths)) && IsThriftyChild(c, plan, 0, lengths.bytes)
    requires dt != Bool && |rest| < 0x1_0000_0000 ==>
      RowsOf(c, rest) == RunsOf(values).values && ThriftyChild(c, plan, 1, rest)
    ensures IsThrifty(c, plan, RleEncoded(dt, |values|, lengths, rest, children).bytes)
  {
    hide Denote, Capture, RunsOf, ReadString, WriteString, Nums, Nats, ThriftyChild;
    var e := RleEncoded(dt, |values|, lengths, rest, children);
    if |e.bytes| < 0x1_0000_0000 {
      var body := WriteString(lengths.bytes) + rest;
      LevelParts(c, 1, dt, values, e.layout, body);
      ReadWrittenString(lengths.bytes, rest);
      NatsOfNums(RunsOf(values).lengths);
      RunsMaximal(values);
      assert ThriftyRuns(c, plan, dt, body);
    }
  }

  /** With stored run values, or with one byte instead. */
  lemma RleSize(plan: Layout, dt: DataType, values: seq<Value>, lengths: Encoded, stored: Option<Encoded>)
    requires
      var runs := RunsOf(values);
      && WithinChild(plan, 0, lengths, |runs.lengths|, |Blob(Nums(runs.lengths))|)
      && (stored.Some? ==> WithinChild(plan, 1, stored.value, |runs.values|, |Blob(runs.values)|))
    ensures
      |Prefix(1, dt, |values|)| + |WriteString(lengths.bytes)| + (if stored.Some? then |stored.value.bytes| else 1)
        <= SizeBound(plan, |values|, |Blob(values)|)
  {
    hide SizeBound, Blob, ChildBound, RunsOf;
    var runs := RunsOf(values);
    NoChars(Nums(runs.lengths));
    RunValuesSubset(values);
    if stored.Some? {
      TwoNested(plan, lengths, stored.value, 10, |values|, |Blob(values)|,
        |runs.lengths|, 0, |runs.values|, |Blob(runs.values)|);
    } else {
      OneNested(plan, lengths, 11, |values|, |Blob(values)|, |runs.lengths|, 0);
    }
  }

  lemma RunsTyped(dt: DataType, values: seq<Value>)
    requires WellTyped(dt, values)
    ensures WellTyped(Uint32, Nums(RunsOf(values).lengths))
    ensures WellTyped(dt.Physical(), RunsOf(values).values)
  {
    hide RunsOf, Blob;
    var lengths := RunsOf(values).lengths;
    forall i | 0 <= i < |lengths| ensures lengths[i] < 0x1_0000_0000 { RunLengthBound(values, i); }
    NumsTyped(lengths);
    RunValuesSubset(values);
    SubsetTyped(dt, values, RunsOf(values).values);
  }

  /** What the body of an RLE level denotes, given what its children do. */
  lemma RleBody(
      z: Unpacker, dt: DataType, n: nat, lengthBytes: seq<Byte>, rest: seq<Byte>, lengths: seq<nat>, values: seq<Value>)
    requires |lengthBytes| < 0x1_0000_0000 && Sum(lengths) == n && |values| == |lengths|
    requires Denote(z, lengthBytes) == Some(NonNull(Uint32, Nums(lengths)))
    requires IsColumn(Denote(z, lengthBytes), Uint32, |lengths|)
    requires
      if dt == Bool then |rest| == 1 && values == Alternating(rest[0] != 0, |lengths|)
      else
        && Denote(z, rest) == Some(NonNull(dt.Physical(), values))
        && IsColumn(Denote(z, rest), dt.Physical(), |lengths|)
    ensures DenoteRle(z, dt, n, WriteString(lengthBytes) + rest) == Some(NonNull(dt, Expand(lengths, values)))
  {
    hide Denote, Expand, ReadString, Nums, Nats, Sum, IsColumn, Alternating, DataType.Physical, WriteString;
    ReadWrittenString(lengthBytes, rest);
    NatsOfNums(lengths);
  }

  lemma RleFrame(z: Unpacker, dt: DataType, n: nat, lengths: Encoded, rest: seq<Byte>, children: seq<Option<Layout>>)
    requires n < 0x1_0000_0000 && |lengths.bytes| < 0x1_0000_0000 && Capture(lengths.bytes) == Some(lengths.layout)
    requires if dt == Bool then children == [] else [Capture(rest)] == children && Capture(rest).Some?
    ensures
      var e := RleEncoded(dt, n, lengths, rest, children);
      && Denote(z, e.bytes) == DenoteRle(z, dt, n, WriteString(lengths.bytes) + rest)
      && Capture(e.bytes) == Some(e.layout)
  {
    hide Denote, Capture, DenoteRle, DenoteTrivial, DenoteDictionary, DenoteFixedBitWidth, DenoteNullable;
    hide DenoteSparseBool, DenoteVarint, DenoteConstant, DenoteMainlyConstant, ReadString;
    var body := WriteString(lengths.bytes) + rest;
    BodyDenotes(z, 1, dt, n, body);
    ReadWrittenString(lengths.bytes, rest);
    var all := [Some(lengths.layout)] + children;
    assert all == if dt == Bool then [Capture(lengths.bytes)] else [Capture(lengths.bytes), Capture(rest)];
    assert CaptureBody(1, dt.Code(), body) == WithChildren(1, 0, all);
    assert None !in all;
  }

  lemma RunsDenote(c: Codec, dt: DataType, values: seq<Value>, lengths: Encoded, stored: Encoded)
    requires Lawful(c) && WellTyped(dt, values) && dt != Bool
    requires Encodes(c, lengths, Uint32, Nums(RunsOf(values).lengths))
    requires Encodes(c, stored, dt.Physical(), RunsOf(values).values)
    ensures Encodes(c, RleEncoded(dt, |values|, lengths, stored.bytes, [Some(stored.layout)]), dt, values)
  {
    hide Denote, Capture, RunsOf, Expand, ReadString, Lawful, Nums, Sum, IsColumn, DenoteRle, Blob, HasType;
    hide DataType.Physical;
    var e := RleEncoded(dt, |values|, lengths, stored.bytes, [Some(stored.layout)]);
    var runs := RunsOf(values);
    if |e.bytes| < 0x1_0000_0000 {
      RleFrame(c.unpack, dt, |values|, lengths, stored.bytes, [Some(stored.layout)]);
      RunsTyped(dt, values);
      TypedColumn(Uint32, Nums(runs.lengths));
      TypedColumn(dt.Physical(), runs.values);
      RunsExpand(values);
      RleBody(c.unpack, dt, |values|, lengths.bytes, stored.bytes, runs.lengths, runs.values);
    }
  }

  lemma BoolRunsDenote(c: Codec, values: seq<Value>, lengths: Encoded)
    requires Lawful(c) && WellTyped(Bool, values) && values != []
    requires Encodes(c, lengths, Uint32, Nums(RunsOf(values).lengths))
    ensures
      var first := if IsSet(RunsOf(values).values[0]) then 1 else 0;
      Encodes(c, RleEncoded(Bool, |values|, lengths, [first], []), Bool, values)
  {
    hide Denote, Capture, RunsOf, Expand, ReadString, Lawful, Nums, Sum, IsColumn, DenoteRle, Blob, HasType;
    hide Alternating;
    var runs := RunsOf(values);
    var first: Byte := if IsSet(runs.values[0]) then 1 else 0;
    var e := RleEncoded(Bool, |values|, lengths, [first], []);
    if |e.bytes| < 0x1_0000_0000 {
      RleFrame(c.unpack, Bool, |values|, lengths, [first], []);
      RunsTyped(Bool, values);
      TypedColumn(Uint32, Nums(runs.lengths));
      RunsExpand(values);
      BoolRuns(values);
      RleBody(c.unpack, Bool, |values|, lengths.bytes, [first], runs.lengths, runs.values);
    }
  }

  lemma BoolRuns(values: seq<Value>)
    requires WellTyped(Bool, values) && values != []
    ensures RunsOf(values).values == Alternating(IsSet(RunsOf(values).values[0]), |RunsOf(values).values|)
  {
    hide RunsOf;
    var runs := RunsOf(values).values;
    RunsTyped(Bool, values);
    forall i | 0 <= i < |runs| ensures runs[i].Flag? { assert HasType(runs[i], Bool); }
    RunsMaximal(values);
    FlagsAlternate(runs);
  }

  // ----- Dictionary

  method EncodeDictionary(c: Codec, plan: Layout, dt: DataType, values: seq<Value>) returns (r: Result<Encoded>)
    requires Lawful(c) && WellTyped(dt, values) && plan.encoding == 2
    ensures r.Ok? <==> Compatible(c, plan, dt, values)
    ensures r.Ok? ==> Encodes(c, r.value, dt, values) && Follows(plan, r.value.layout)
    ensures r.Ok? ==> IsThrifty(c, plan, r.value.bytes)
    ensures r.Ok? ==> |r.value.bytes| <= SizeBound(plan, |values|, |Blob(values)|)
    decreases plan, 8
  {
    hide Encodes, CompatibleChild, IndicesIn, SizeBound, ChildBound, Blob, IsThrifty, IsThriftyChild;
    if dt == Bool || values == [] { return Error; }
    var alphabet := c.order(values);
    var indices := MapToIndices(alphabet, values);
    AlphabetTyped(dt, values, alphabet);
    var first := EncodeChild(c, plan, 0, dt.Physical(), alphabet);
    if first.Error? { return Error; }
    var second := EncodeChild(c, plan, 1, Uint32, Nums(indices));
    if second.Error? { return Error; }
    DictionaryDenotes(c, dt, values, alphabet, first.value, second.value);
    DictionarySize(plan, dt, values, alphabet, first.value, second.value);
    DictionaryThrifty(c, plan, dt, values, alphabet, first.value, second.value);
    r := Ok(DictionaryEncoded(dt, |values|, first.value, second.value));
  }

  function DictionaryEncoded(dt: DataType, rowCount: nat, alphabet: Encoded, indices: Encoded): Encoded
  {
    Encoded(Prefix(2, dt, rowCount) + (WriteString(alphabet.bytes) + indices.bytes),
            Layout(2, 0, [Some(alphabet.layout), Some(indices.layout)]))
  }

  lemma DictionaryThrifty(
      c: Codec, plan: Layout, dt: DataType, values: seq<Value>, alphabet: seq<Value>, first: Encoded, second: Encoded)
    requires |values| < 0x1_0000_0000 && IsOrder(alphabet, values) && Encodes(c, first, dt.Physical(), alphabet)
    requires Encodes(c, DictionaryEncoded(dt, |values|, first, second), dt, values)
    requires IsThriftyChild(c, plan, 0, first.bytes) && IsThriftyChild(c, plan, 1, second.bytes)
    ensures IsThrifty(c, plan, DictionaryEncoded(dt, |values|, first, second).bytes)
  {
    hide Denote, Capture, ReadString, WriteString, ThriftyChild, IsOrder, DataType.Physical;
    var e := DictionaryEncoded(dt, |values|, first, second);
    if |e.bytes| < 0x1_0000_0000 {
      var body := WriteString(first.bytes) + second.bytes;
      LevelParts(c, 2, dt, values, e.layout, body);
      ReadWrittenString(first.bytes, second.bytes);
      assert ThriftyDictionary(c, plan, values, body);
    }
  }

  lemma DictionarySize(
      plan: Layout, dt: DataType, values: seq<Value>, alphabet: seq<Value>, first: Encoded, second: Encoded)
    requires IsOrder(alphabet, values) && WithinChild(plan, 0, first, |alphabet|, |Blob(alphabet)|)
    requires WithinChild(plan, 1, second, |values|, |Blob(Nums(IndicesIn(alphabet, values)))|)
    ensures |DictionaryEncoded(dt, |values|, first, second).bytes| <= SizeBound(plan, |values|, |Blob(values)|)
  {
    hide SizeBound, Blob, ChildBound, IndicesIn;
    NoChars(Nums(IndicesIn(alphabet, values)));
    DistinctSubset(alphabet, values);
    TwoNested(plan, first, second, 10, |values|, |Blob(values)|, |alphabet|, |Blob(alphabet)|, |values|, 0);
  }

  lemma AlphabetTyped(dt: DataType, values: seq<Value>, alphabet: seq<Value>)
    requires WellTyped(dt, values) && IsOrder(alphabet, values)
    ensures WellTyped(dt.Physical(), alphabet) && WellTyped(Uint32, Nums(IndicesIn(alphabet, values)))
  {
    hide Blob, Lookup;
    DistinctSubset(alphabet, values);
    SubsetTyped(dt, values, alphabet);
    LookupRestores(alphabet, values);
    NumsTyped(IndicesIn(alphabet, values));
  }

  lemma DictionaryDenotes(
      c: Codec, dt: DataType, values: seq<Value>, alphabet: seq<Value>, first: Encoded, second: Encoded)
    requires Lawful(c) && WellTyped(dt, values) && dt != Bool && IsOrder(alphabet, values)
    requires Encodes(c, first, dt.Physical(), alphabet)
    requires Encodes(c, second, Uint32, Nums(IndicesIn(alphabet, values)))
    ensures Encodes(c, DictionaryEncoded(dt, |values|, first, second), dt, values)
  {
    hide Denote, Capture, IndicesIn, Lookup, ReadString, Lawful, Nums, Nats, IsColumn, InRange, IsOrder, Blob, HasType;
    var e := DictionaryEncoded(dt, |values|, first, second);
    if |e.bytes| < 0x1_0000_0000 {
      var body := WriteString(first.bytes) + second.bytes;
      BodyDenotes(c.unpack, 2, dt, |values|, body);
      ReadWrittenString(first.bytes, second.bytes);
      NatsOfNums(IndicesIn(alphabet, values));
      AlphabetTyped(dt, values, alphabet);
      TypedColumn(dt.Physical(), alphabet);
      TypedColumn(Uint32, Nums(IndicesIn(alphabet, values)));
      LookupRestores(alphabet, values);
    }
  }

  // ----- SparseBool

  method EncodeSparseBool(c: Codec, plan: Layout, dt: DataType, values: seq<Value>) returns (r: Result<Encoded>)
    requires Lawful(c) && WellTyped(dt, values) && plan.encoding == 6
    ensures r.Ok? <==> Compatible(c, plan, dt, values)
    ensures r.Ok? ==> Encodes(c, r.value, dt, values) && Follows(plan, r.value.layout)
    ensures r.Ok? ==> IsThrifty(c, plan, r.value.bytes)
    ensures r.Ok? ==> |r.value.bytes| <= SizeBound(plan, |values|, |Blob(values)|)
    decreases plan, 8
  {
    hide Encodes, CompatibleChild, Lawful, PositionsOf, CountTrue, SizeBound, ChildBound, Blob, IsThrifty;
    hide IsThriftyChild;
    if dt != Bool { return Error; }
    var setCount := CountTrue(Flags(values));
    var sparseValue := !(setCount > |values| / 2);
    var indices := FindSparse(values, sparseValue);
    indices := indices + [|values|];
    SparseTyped(values);
    var child := EncodeChild(c, plan, 0, Uint32, Nums(indices));
    if child.Error? { return Error; }
    SparseDenotes(c, values, child.value);
    SparseThrifty(c, plan, values, child.value);
    NoChars(Nums(indices));
    OneNested(plan, child.value, 7, |values|, |Blob(values)|, |indices|, 0);
    r := Ok(SparseEncoded(|values|, sparseValue, child.value));
  }

  function SparseEncoded(rowCount: nat, sparseValue: bool, indices: Encoded): Encoded
  {
    Encoded(Prefix(6, Bool, rowCount) + ([if sparseValue then 1 else 0] + indices.bytes),
            Layout(6, 0, [Some(indices.layout)]))
  }

  lemma {:induction false} SparseIsMinority(flags: seq<bool>, value: bool)
    ensures |PositionsOf(flags, value)| == if value then CountTrue(flags) else |flags| - CountTrue(flags)
  {
    if flags != [] {
      var n := |flags| - 1;
      SparseIsMinority(flags[..n], value);
      RankOfPrefix(flags, n);
    }
  }

  lemma SparseThrifty(c: Codec, plan: Layout, values: seq<Value>, indices: Encoded)
    requires |values| < 0x1_0000_0000 && IsThriftyChild(c, plan, 0, indices.bytes)
    requires Encodes(c, indices, Uint32, Nums(SparseIndices(Flags(values)) + [|values|]))
    requires Encodes(c, SparseEncoded(|values|, SparseValue(Flags(values)), indices), Bool, values)
    ensures IsThrifty(c, plan, SparseEncoded(|values|, SparseValue(Flags(values)), indices).bytes)
  {
    hide Denote, Capture, ThriftyChild, Flags, PositionsOf, CountTrue;
    var flags := Flags(values);
    var e := SparseEncoded(|values|, SparseValue(flags), indices);
    if |e.bytes| < 0x1_0000_0000 {
      var body := [if SparseValue(flags) then 1 else 0] + indices.bytes;
      LevelParts(c, 6, Bool, values, e.layout, body);
      assert body[1..] == indices.bytes;
      SparseIsMinority(flags, SparseValue(flags));
      RankAll(flags);
      assert ThriftyFlags(c, plan, values, body);
    }
  }

  lemma SparseTyped(values: seq<Value>)
    requires WellTyped(Bool, values)
    ensures WellTyped(Uint32, Nums(SparseIndices(Flags(values)) + [|values|]))
  {
    hide PositionsOf, Blob, CountTrue;
    var flags := Flags(values);
    PositionsExact(flags, SparseValue(flags));
    SparseIsMinority(flags, SparseValue(flags));
    NumsTyped(SparseIndices(flags) + [|values|]);
  }

  lemma SparseDenotes(c: Codec, values: seq<Value>, indices: Encoded)
    requires Lawful(c) && WellTyped(Bool, values)
    requires Encodes(c, indices, Uint32, Nums(SparseIndices(Flags(values)) + [|values|]))
    ensures Encodes(c, SparseEncoded(|values|, SparseValue(Flags(values)), indices), Bool, values)
  {
    hide Denote, Capture, Lawful, Nums, Nats, IsColumn, Sparse, IndexList, SparseIndices, SparseValue, Flags;
    hide Blob, HasType;
    var flags := Flags(values);
    var list := SparseIndices(flags) + [|values|];
    var e := SparseEncoded(|values|, SparseValue(flags), indices);
    if |e.bytes| < 0x1_0000_0000 {
      var body := [if SparseValue(flags) then 1 else 0] + indices.bytes;
      BodyDenotes(c.unpack, 6, Bool, |values|, body);
      assert body[1..] == indices.bytes;
      NatsOfNums(list);
      SparseTyped(values);
      TypedColumn(Uint32, Nums(list));
      AllFlags(values);
      SparseRestores(values);
    }
  }

  lemma AllFlags(values: seq<Value>)
    requires WellTyped(Bool, values)
    ensures forall i :: 0 <= i < |values| ==> values[i].Flag?
  {
    forall i | 0 <= i < |values| ensures values[i].Flag? { assert HasType(values[i], Bool); }
  }

  // ----- Constant

  method EncodeConstant(c: Codec, plan: Layout, dt: DataType, values: seq<Value>) returns (r: Result<Encoded>)
    requires Lawful(c) && WellTyped(dt, values) && plan.encoding == 9
    ensures r.Ok? <==> Compatible(c, plan, dt, values)
    ensures r.Ok? ==> Encodes(c, r.value, dt, values) && Follows(plan, r.value.layout)
    ensures r.Ok? ==> IsThrifty(c, plan, r.value.bytes)
    ensures r.Ok? ==> |r.value.bytes| <= SizeBound(plan, |values|, |Blob(values)|)
  {
    hide SizeBound, Blob, WriteValue, Encodes, IsThrifty;
    if values == [] { return Error; }
    var order := c.order(values);
    if |order| != 1 { return Error; }
    var e := Encoded(Prefix(9, dt, |values|) + WriteValue(values[0], dt), Layout(9, 0, []));
    r := Ok(e);
    ConstantEncodes(c, dt, values, order);
    ConstantThrifty(c, plan, dt, values);
    ValueSize(values[0], dt);
    LengthBound(values, 0);
    NoneNested(plan, |e.bytes|, |values|, |Blob(values)|);
  }

  lemma ConstantEncodes(c: Codec, dt: DataType, values: seq<Value>, order: seq<Value>)
    requires WellTyped(dt, values) && values != [] && IsOrder(order, values) && |order| == 1
    ensures Encodes(c, Encoded(Prefix(9, dt, |values|) + WriteValue(values[0], dt), Layout(9, 0, [])), dt, values)
  {
    hide Denote, Capture, WriteValue, Blob, WellTyped;
    if |WriteValue(values[0], dt)| < 0x1_0000_0000 { ConstantDenotes(c, dt, values, order); }
  }

  lemma ConstantThrifty(c: Codec, plan: Layout, dt: DataType, values: seq<Value>)
    requires 0 < |values| < 0x1_0000_0000
    requires Encodes(c, Encoded(Prefix(9, dt, |values|) + WriteValue(values[0], dt), Layout(9, 0, [])), dt, values)
    ensures IsThrifty(c, plan, Prefix(9, dt, |values|) + WriteValue(values[0], dt))
  {
    hide Encodes, WriteValue, Denote, RowsOf;
    var body := WriteValue(values[0], dt);
    if PREFIX_SIZE + |body| < 0x1_0000_0000 { LevelParts(c, 9, dt, values, Layout(9, 0, []), body); }
  }

  lemma ConstantDenotes(c: Codec, dt: DataType, values: seq<Value>, order: seq<Value>)
    requires WellTyped(dt, values) && values != [] && IsOrder(order, values) && |order| == 1
    requires |WriteValue(values[0], dt)| < 0x1_0000_0000
    ensures
      var e := Encoded(Prefix(9, dt, |values|) + WriteValue(values[0], dt), Layout(9, 0, []));
      Denote(c.unpack, e.bytes) == Some(NonNull(dt, values)) && Capture(e.bytes) == Some(e.layout)
  {
    hide Denote, Capture, WriteValue, ReadValue, DenoteRle, DenoteTrivial, DenoteDictionary, DenoteFixedBitWidth;
    hide DenoteNullable, DenoteSparseBool, DenoteVarint, DenoteMainlyConstant, Blob;
    var body := WriteValue(values[0], dt);
    assert HasType(values[0], dt);
    ReadWrittenValue(values[0], dt, []);
    assert body + [] == body;
    BodyNotEmpty(values[0], dt);
    BodyDenotes(c.unpack, 9, dt, |values|, body);
    forall i | 0 <= i < |values| ensures values[i] == values[0] {
      assert values[i] in order && values[0] in order;
    }
    assert Repeat(values[0], |values|) == values;
  }

  lemma BodyNotEmpty(v: Value, dt: DataType)
    requires HasType(v, dt)
    ensures WriteValue(v, dt) != []
  {
  }

  // ----- MainlyConstant

  method EncodeMainlyConstant(c: Codec, plan: Layout, dt: DataType, values: seq<Value>) returns (r: Result<Encoded>)
    requires Lawful(c) && WellTyped(dt, values) && plan.encoding == 10
    ensures r.Ok? <==> Compatible(c, plan, dt, values)
    ensures r.Ok? ==> Encodes(c, r.value, dt, values) && Follows(plan, r.value.layout)
    ensures r.Ok? ==> IsThrifty(c, plan, r.value.bytes)
    ensures r.Ok? ==> |r.value.bytes| <= SizeBound(plan, |values|, |Blob(values)|)
    decreases plan, 8
  {
    hide Encodes, CompatibleChild, Others, Marks, MostCommon, SizeBound, ChildBound, Blob, IsThrifty, IsThriftyChild;
    hide IsMostCommon;
    if dt == Bool || values == [] { return Error; }
    assert values[0] in values;
    var common := FindMostCommon(c.order(values), values);
    var isCommon, others := SplitOthers(values, common);
    OthersTyped(dt, values, common);
    var first := EncodeChild(c, plan, 0, Bool, isCommon);
    if first.Error? { return Error; }
    var second := EncodeChild(c, plan, 1, dt.Physical(), others);
    if second.Error? { return Error; }
    MainlyDenotes(c, dt, values, common, first.value, second.value);
    MainlySize(plan, dt, values, common, first.value, second.value);
    MostCommonIsFirst(c.order(values), values);
    MemberTyped(dt, values, common);
    MainlyThrifty(c, plan, dt, values, common, first.value, second.value);
    r := Ok(MainlyEncoded(dt, |values|, first.value, second.value, common));
  }

  function MainlyEncoded(dt: DataType, rowCount: nat, isCommon: Encoded, others: Encoded, common: Value): Encoded
  {
    Encoded(Prefix(10, dt, rowCount) +
              (WriteString(isCommon.bytes) + (WriteString(others.bytes) + WriteValue(common, dt))),
            Layout(10, 0, [Some(isCommon.layout), Some(others.layout)]))
  }

  lemma MainlyThrifty(
      c: Codec, plan: Layout, dt: DataType, values: seq<Value>, common: Value, first: Encoded, second: Encoded)
    requires |values| < 0x1_0000_0000 && HasType(common, dt) && IsMostCommon(c.order(values), values, common)
    requires Encodes(c, MainlyEncoded(dt, |values|, first, second, common), dt, values)
    requires IsThriftyChild(c, plan, 0, first.bytes) && IsThriftyChild(c, plan, 1, second.bytes)
    ensures IsThrifty(c, plan, MainlyEncoded(dt, |values|, first, second, common).bytes)
  {
    hide Encodes, Denote, Capture, RowsOf, ReadString, WriteString, ReadValue, WriteValue, ThriftyChild, HasType;
    hide IsMostCommon;
    var e := MainlyEncoded(dt, |values|, first, second, common);
    if |e.bytes| < 0x1_0000_0000 {
      var last := WriteValue(common, dt);
      var rest := WriteString(second.bytes) + last;
      var body := WriteString(first.bytes) + rest;
      LevelParts(c, 10, dt, values, e.layout, body);
      ReadWrittenString(first.bytes, rest);
      ReadWrittenString(second.bytes, last);
      ReadWrittenValue(common, dt, []);
      assert last + [] == last;
      assert ThriftyMainly(c, plan, dt, values, body);
    }
  }

  lemma MainlySize(plan: Layout, dt: DataType, values: seq<Value>, common: Value, first: Encoded, second: Encoded)
    requires common in values && WithinChild(plan, 0, first, |values|, |Blob(Marks(values, common))|)
    requires WithinChild(plan, 1, second, |Others(values, common)|, |Blob(Others(values, common))|)
    ensures |MainlyEncoded(dt, |values|, first, second, common).bytes| <= SizeBound(plan, |values|, |Blob(values)|)
  {
    hide SizeBound, Blob, ChildBound, Others, WriteValue;
    NoChars(Marks(values, common));
    OthersSubset(values, common);
    ValueSize(common, dt);
    var i :| 0 <= i < |values| && values[i] == common;
    LengthBound(values, i);
    TwoNested(plan, first, second, 14 + |WriteValue(common, dt)|, |values|, |Blob(values)|,
      |values|, 0, |Others(values, common)|, |Blob(Others(values, common))|);
  }

  lemma OthersTyped(dt: DataType, values: seq<Value>, common: Value)
    requires WellTyped(dt, values)
    ensures WellTyped(Bool, Marks(values, common)) && WellTyped(dt.Physical(), Others(values, common))
  {
    hide Blob, Others;
    NoChars(Marks(values, common));
    OthersSubset(values, common);
    SubsetTyped(dt, values, Others(values, common));
  }

  lemma MainlyDenotes(c: Codec, dt: DataType, values: seq<Value>, common: Value, first: Encoded, second: Encoded)
    requires Lawful(c) && WellTyped(dt, values) && dt != Bool && common in values
    requires Encodes(c, first, Bool, Marks(values, common))
    requires Encodes(c, second, dt.Physical(), Others(values, common))
    ensures Encodes(c, MainlyEncoded(dt, |values|, first, second, common), dt, values)
  {
    hide Denote, Capture, ReadString, Lawful, IsColumn, Merge, CountTrue, Marks, Others, Flags;
    hide WriteValue, ReadValue, HasType, Blob;
    var e := MainlyEncoded(dt, |values|, first, second, common);
    if |e.bytes| < 0x1_0000_0000 {
      var last := WriteValue(common, dt);
      var rest := WriteString(second.bytes) + last;
      BodyDenotes(c.unpack, 10, dt, |values|, WriteString(first.bytes) + rest);
      ReadWrittenString(first.bytes, rest);
      ReadWrittenString(second.bytes, last);
      MemberTyped(dt, values, common);
      ReadWrittenValue(common, dt, []);
      assert last + [] == last;
      OthersTyped(dt, values, common);
      TypedColumn(Bool, Marks(values, common));
      TypedColumn(dt.Physical(), Others(values, common));
      MergeRestores(values, common);
    }
  }

  lemma MemberTyped(dt: DataType, values: seq<Value>, v: Value)
    requires WellTyped(dt, values) && v in values
    ensures HasType(v, dt)
  {
  }

  // ----- FixedBitWidth

  /** `bitsRequired`, rounded up to whole bytes. */
  function PackedWidth(range: nat): nat
  {
    (Varints.BitLength(Or(range, 1)) + 7) / 8 * 8
  }

  lemma {:induction false} FitsItsLength(n: nat)
    ensures Fits(n, Varints.BitLength(n))
  {
    if n > 0 { FitsItsLength(n / 2); }
  }

  lemma WidthFits(range: nat, bits: nat)
    requires bits in {8, 16, 32, 64} && Fits(range, bits)
    ensures 1 <= PackedWidth(range) <= bits && Fits(range, PackedWidth(range))
  {
    hide Pow2, Varints.BitLength, Or;
    Varints.BitLengthOrOne(range);
    Varints.BitLengthFits(range, bits);
    Statistics.NoBits(range);
    FitsItsLength(range);
    FitsMore(range, Varints.BitLength(range), PackedWidth(range));
  }

  method EncodeFixedBitWidth(c: Codec, plan: Layout, dt: DataType, values: seq<Value>) returns (r: Result<Encoded>)
    requires Lawful(c) && WellTyped(dt, values) && plan.encoding == 3
    ensures r.Ok? <==> Compatible(c, plan, dt, values)
    ensures r.Ok? ==> Encodes(c, r.value, dt, values) && Follows(plan, r.value.layout)
    ensures r.Ok? ==> BaselineAndWidthAt(r.value.bytes, PREFIX_SIZE + 1, dt.Size(), values)
    ensures r.Ok? ==> IsThrifty(c, plan, r.value.bytes)
    ensures r.Ok? ==> |r.value.bytes| <= SizeBound(plan, |values|, |Blob(values)|)
  {
    hide Encodes, Lawful, PackedWidth, Pow2, Slot, BufferSize, SizeBound, Blob, IsThrifty, IsMinimum, IsWidth;
    hide BaselineAndWidthAt;
    if !dt.IsNumeric() || values == [] { return Error; }
    var size := dt.Size();
    var numbers := Nats(values);
    NumbersFit(dt, values);
    var min, max := MinMax(numbers);
    var width := PackedWidth(max - min);
    WidthFits(max - min, 8 * size);
    WordSizes();
    var raw := PackNumbers(numbers, min, max, width, size);
    FixedDenotes(c, plan.compression, dt, values, min, width, raw);
    Packable(|values|, width);
    FixedSize(c, plan, dt, |values|, min, width, raw, |Blob(values)|);
    MinimumAndWidth(numbers, min, max);
    FixedThrifty(c, plan, dt, values, min, width, raw);
    r := Ok(FixedEncoded(c, plan.compression, dt, |values|, min, width, raw));
  }

  lemma MinimumAndWidth(numbers: seq<nat>, min: nat, max: nat)
    requires min in numbers && max in numbers && forall i :: 0 <= i < |numbers| ==> min <= numbers[i] <= max
    ensures IsMinimum(min, numbers) && IsWidth(PackedWidth(max - min), min, numbers)
  {
    hide Pow2, Varints.BitLength, Or;
    var width, bits := PackedWidth(max - min), Varints.BitLength(Or(max - min, 1));
    Varints.BitLengthOrOne(max - min);
    Statistics.NoBits(max - min);
    FitsItsLength(max - min);
    FitsMore(max - min, Varints.BitLength(max - min), width);
    if width > 8 {
      var i :| 0 <= i < |numbers| && numbers[i] == max;
      if Fits(max - min, width - 8) { LengthOfFit(max - min, width - 8); }
    }
  }

  lemma LengthOfFit(n: nat, bits: nat)
    requires Fits(n, bits)
    ensures Varints.BitLength(n) <= bits
  {
    Varints.BitLengthFits(n, bits);
  }

  lemma FixedThrifty(
      c: Codec, plan: Layout, dt: DataType, values: seq<Value>, min: nat, width: Byte, raw: seq<Byte>)
    requires Lawful(c) && |values| < 0x1_0000_0000 && Fits(min, 8 * dt.Size())
    requires IsMinimum(min, Nats(values)) && IsWidth(width, min, Nats(values))
    requires Encodes(c, FixedEncoded(c, plan.compression, dt, |values|, min, width, raw), dt, values)
    ensures
      var b := FixedEncoded(c, plan.compression, dt, |values|, min, width, raw).bytes;
      IsThrifty(c, plan, b) && BaselineAndWidthAt(b, PREFIX_SIZE + 1, dt.Size(), values)
  {
    hide Encodes, Lawful, Compressed, WellPacked, Denote, RowsOf, IsMinimum, IsWidth, Pow2, LeNat, LeBytes, Prefix;
    var (actual, data) := Compressed(c, plan.compression, raw);
    var baseline, prefix := LeBytes(min, dt.Size()), Prefix(3, dt, |values|);
    var body := [actual] + baseline + [width] + data;
    var b := prefix + body;
    LeBytesRead(min, dt.Size());
    FieldsOf(prefix, actual, baseline, width, data);
    if |b| < 0x1_0000_0000 {
      LevelParts(c, 3, dt, values, Layout(3, actual, []), body);
      CompressedWell(c, plan.compression, raw);
    }
  }

  lemma FieldsOf(prefix: seq<Byte>, actual: Byte, baseline: seq<Byte>, width: Byte, data: seq<Byte>)
    ensures
      var body, size := [actual] + baseline + [width] + data, |baseline|;
      && body[0] == actual && body[1..1 + size] == baseline && body[1 + size] == width && body[2 + size..] == data
      && (prefix + body)[|prefix| + 1..|prefix| + 1 + size] == baseline
      && (prefix + body)[|prefix| + 1 + size] == width
  {
    var size := |baseline|;
    var start := [actual] + baseline;
    var body := start + [width] + data;
    assert |start| == 1 + size && start[1..] == baseline;
    assert (start + [width])[..1 + size] == start;
    assert body[..2 + size] == start + [width];
    assert body[..1 + size] == start;
    assert body[1..1 + size] == start[1..];
  }

  lemma NumbersFit(dt: DataType, values: seq<Value>)
    requires WellTyped(dt, values) && dt.IsNumeric()
    ensures Statistics.AllFit(Nats(values), 8 * dt.Size()) && Nums(Nats(values)) == values
    ensures Fits(0, 8 * dt.Size())
  {
    hide Blob, Pow2;
    forall i | 0 <= i < |values| ensures values[i].Num? && Fits(values[i].n, 8 * dt.Size()) {
      assert HasType(values[i], dt);
    }
  }

  function FixedEncoded(
    c: Codec, compression: Byte, dt: DataType, rowCount: nat, min: nat, width: Byte, raw: seq<Byte>): Encoded
  {
    var (actual, data) := Compressed(c, compression, raw);
    Encoded(Prefix(3, dt, rowCount) + ([actual] + LeBytes(min, dt.Size()) + [width] + data), Layout(3, actual, []))
  }

  lemma FixedSize(
      c: Codec, plan: Layout, dt: DataType, rows: nat, min: nat, width: Byte, raw: seq<Byte>, chars: nat)
    requires Lawful(c) && |raw| <= 8 * rows + 8
    ensures |FixedEncoded(c, plan.compression, dt, rows, min, width, raw).bytes| <= SizeBound(plan, rows, chars)
  {
    hide Compressed, Lawful, SizeBound;
    CompressedUnpacks(c, plan.compression, raw);
    NoneNested(plan, |FixedEncoded(c, plan.compression, dt, rows, min, width, raw).bytes|, rows, chars);
  }

  /** Packs the distances from the minimum into a zeroed buffer; four-byte types in bulk. */
  method PackNumbers(numbers: seq<nat>, min: nat, max: nat, width: nat, size: nat) returns (raw: seq<Byte>)
    requires min <= max && 1 <= width <= 64 && (size == 4 ==> width <= 32) && Fits(max - min, width)
    requires forall i :: 0 <= i < |numbers| ==> min <= numbers[i] <= max
    requires size == 4 ==> max < 0x1_0000_0000
    ensures |raw| == BufferSize(|numbers|, width)
    ensures forall i :: 0 <= i < |numbers| ==> Slot(raw, width, i) == numbers[i] - min
  {
    hide Slot, BufferSize, Pow2, Or;
    var buffer := new Byte[BufferSize(|numbers|, width)](_ => 0);
    ghost var zero := buffer[..];
    forall i: nat ensures Slot(zero, width, i) == 0 { ZeroSlot(zero, width, i); }
    var fba := new FixedBitArray(buffer, width);
    if size == 4 {
      assert Offsets(numbers, min) == Statistics.Less(numbers, min);
      forall v | v in Offsets(numbers, min) ensures Fits(v, width) { }
      fba.BulkSet32(0, numbers, min);
      forall i | 0 <= i < |numbers| ensures Slot(buffer[..], width, i) == numbers[i] - min {
        OrZero(numbers[i] - min);
        assert Slot(buffer[..], width, i) == OredValue(zero, width, 0, Offsets(numbers, min), i);
      }
    } else {
      for i := 0 to |numbers|
        invariant forall j :: 0 <= j < i ==> Slot(buffer[..], width, j) == numbers[j] - min
        invariant forall j: nat :: i <= j ==> Slot(buffer[..], width, j) == 0
      {
        fba.HoldsMono(i + 1, |numbers|);
        ghost var before := buffer[..];
        fba.Set(i, numbers[i] - min);
        OrZero(numbers[i] - min);
        forall j: nat
          ensures Slot(buffer[..], width, j) == if j == i then numbers[i] - min else Slot(before, width, j) {
          assert Slot(buffer[..], width, j) == OredValue(before, width, i, [numbers[i] - min], j);
        }
      }
    }
    raw := buffer[..];
  }

  lemma FixedDenotes(
      c: Codec, compression: Byte, dt: DataType, values: seq<Value>, min: nat, width: nat, raw: seq<Byte>)
    requires Lawful(c) && WellTyped(dt, values) && dt.IsNumeric() && 1 <= width <= 8 * dt.Size()
    requires |raw| == BufferSize(|values|, width) && Fits(min, 8 * dt.Size())
    requires forall i :: 0 <= i < |values| ==> Slot(raw, width, i) + min == Nat(values[i])
    ensures Encodes(c, FixedEncoded(c, compression, dt, |values|, min, width, raw), dt, values)
  {
    hide Denote, Capture, Lawful, Compressed, DenoteTrivial, DenoteRle, DenoteDictionary, DenoteFixedBitWidth;
    hide DenoteNullable, DenoteSparseBool, DenoteVarint, DenoteConstant, DenoteMainlyConstant;
    hide BufferSize, Slot, Pow2, Blob, HasType;
    var (actual, data) := Compressed(c, compression, raw);
    var body := [actual] + LeBytes(min, dt.Size()) + [width] + data;
    BodyDenotes(c.unpack, 3, dt, |values|, body);
    CompressedUnpacks(c, compression, raw);
    LeBytesRead(min, dt.Size());
    assert body[1..1 + dt.Size()] == LeBytes(min, dt.Size());
    assert body[1 + dt.Size()] == width && body[2 + dt.Size()..] == data;
    PackedRestores(dt, values, min, width, raw);
    FixedBody(c.unpack, dt, body, raw, values, min, width);
  }

  lemma FixedBody(
      z: Unpacker, dt: DataType, body: seq<Byte>, raw: seq<Byte>, values: seq<Value>, min: nat, width: nat)
    requires dt.IsNumeric() && 1 <= width <= 8 * dt.Size() && |raw| == BufferSize(|values|, width)
    requires |body| >= 2 + dt.Size() && LeNat(body[1..1 + dt.Size()]) == min && body[1 + dt.Size()] == width
    requires Unpack(z, body[0], body[2 + dt.Size()..]) == raw
    requires Packed(raw, width, min, 8 * dt.Size(), |values|) == values
    ensures DenoteFixedBitWidth(z, dt, |values|, body) == Some(NonNull(dt, values))
  {
    hide BufferSize, Packed, Unpack, DataType.Size;
  }

  lemma PackedRestores(dt: DataType, values: seq<Value>, min: nat, width: nat, raw: seq<Byte>)
    requires WellTyped(dt, values) && dt.IsNumeric()
    requires forall i :: 0 <= i < |values| ==> Slot(raw, width, i) + min == Nat(values[i])
    ensures Packed(raw, width, min, 8 * dt.Size(), |values|) == values
  {
    hide Slot, Pow2, Blob, Wrapped;
    NumbersFit(dt, values);
    forall i | 0 <= i < |values| ensures Packed(raw, width, min, 8 * dt.Size(), |values|)[i] == values[i] {
      assert values[i] == Nums(Nats(values))[i];
      WrappedFits(Nat(values[i]), 8 * dt.Size());
    }
  }

  lemma WrappedFits(n: nat, bits: nat)
    requires Fits(n, bits)
    ensures Wrapped(n, bits) == n
  {
    hide Pow2;
    DivModUnique(n, Pow2(bits), 0, n);
  }

  // ----- Varint

  method EncodeVarint(c: Codec, plan: Layout, dt: DataType, values: seq<Value>) returns (r: Result<Encoded>)
    requires Lawful(c) && WellTyped(dt, values) && plan.encoding == 7
    ensures r.Ok? <==> Compatible(c, plan, dt, values)
    ensures r.Ok? ==> Encodes(c, r.value, dt, values) && Follows(plan, r.value.layout)
    ensures r.Ok? ==> BaselineAt(r.value.bytes, PREFIX_SIZE, dt.Size(), values)
    ensures r.Ok? ==> IsThrifty(c, plan, r.value.bytes)
    ensures r.Ok? ==> |r.value.bytes| <= SizeBound(plan, |values|, |Blob(values)|)
  {
    hide Encodes, Lawful, Pow2, Varints.Encoded, SizeBound, Blob, IsThrifty, BaselineAt;
    var size := dt.Size();
    if (size != 4 && size != 8) || values == [] { return Error; }
    var numbers := Nats(values);
    NumbersFit(dt, values);
    var min, _ := MinMax(numbers);
    var dataSize := ReservedSize(numbers, min, 8 * size);
    var data := WriteVarints(numbers, min);
    // The size reserved from the statistics is the size written, as long as it fits 32 bits.
    assert |data| < 0x1_0000_0000 ==> dataSize == |data|;
    VarintDenotes(c, dt, values, min);
    VarintThrifty(c, plan, dt, values, min, data);
    VarintsSize(Statistics.Less(numbers, min), 8 * size);
    NoneNested(plan, 6 + size + |data|, |values|, |Blob(values)|);
    r := Ok(VarintEncoded(dt, |values|, min, data));
  }

  lemma {:induction false} VarintsSize(numbers: seq<nat>, bits: nat)
    requires bits <= 64 && forall i :: 0 <= i < |numbers| ==> Fits(numbers[i], bits)
    ensures |Varints.Encoded(numbers)| <= 10 * |numbers|
  {
    hide Pow2, Varints.VarintBytes;
    if numbers != [] {
      Varints.SizeFromBitLength(numbers[0]);
      Varints.BitLengthFits(numbers[0], bits);
      VarintsSize(numbers[1..], bits);
    }
  }

  method ReservedSize(numbers: seq<nat>, min: nat, bits: nat) returns (dataSize: nat)
    requires Varints.Width(bits) && Statistics.AtLeast(numbers, min) && Statistics.AllFit(numbers, bits)
    ensures dataSize == |Varints.Encoded(Statistics.Less(numbers, min))| % 0x1_0000_0000
  {
    hide Varints.Encoded, Statistics.Weighted, Statistics.CountIn, Pow2;
    var buckets := Statistics.BucketCounts(numbers, min, bits);
    dataSize := Statistics.DataSize(buckets, Statistics.BitLengths(numbers, min));
    Statistics.PredictedSize(numbers, min, bits);
  }

  method WriteVarints(numbers: seq<nat>, min: nat) returns (data: seq<Byte>)
    requires Statistics.AtLeast(numbers, min)
    ensures data == Varints.Encoded(Statistics.Less(numbers, min))
  {
    hide Varints.Encoded;
    data := [];
    Varints.EncodedNothing();
    ghost var offsets := Statistics.Less(numbers, min);
    for i := 0 to |numbers|
      invariant data == Varints.Encoded(offsets[..i])
    {
      var bytes := Varints.WriteVarint(numbers[i] - min);
      Varints.EncodedNext(offsets[..i], numbers[i] - min);
      assert offsets[..i + 1] == offsets[..i] + [numbers[i] - min];
      data := data + bytes;
    }
    assert offsets[..|numbers|] == offsets;
  }

  function VarintEncoded(dt: DataType, rowCount: nat, min: nat, data: seq<Byte>): Encoded
  {
    Encoded(Prefix(7, dt, rowCount) + (LeBytes(min, dt.Size()) + data), Layout(7, 0, []))
  }

  lemma VarintThrifty(c: Codec, plan: Layout, dt: DataType, values: seq<Value>, min: nat, data: seq<Byte>)
    requires |values| < 0x1_0000_0000 && Fits(min, 8 * dt.Size()) && IsMinimum(min, Nats(values))
    requires Encodes(c, VarintEncoded(dt, |values|, min, data), dt, values)
    ensures
      var b := VarintEncoded(dt, |values|, min, data).bytes;
      IsThrifty(c, plan, b) && BaselineAt(b, PREFIX_SIZE, dt.Size(), values)
  {
    hide Encodes, Denote, RowsOf, IsMinimum, Pow2, LeNat, LeBytes, Prefix;
    var body := LeBytes(min, dt.Size()) + data;
    var b := Prefix(7, dt, |values|) + body;
    LeBytesRead(min, dt.Size());
    assert body[..dt.Size()] == LeBytes(min, dt.Size()) == b[PREFIX_SIZE..PREFIX_SIZE + dt.Size()];
    assert body[0..dt.Size()] == body[..dt.Size()];
    if |b| < 0x1_0000_0000 { LevelParts(c, 7, dt, values, Layout(7, 0, []), body); }
  }

  lemma VarintDenotes(c: Codec, dt: DataType, values: seq<Value>, min: nat)
    requires WellTyped(dt, values) && dt.Size() in {4, 8} && Fits(min, 8 * dt.Size())
    requires Statistics.AtLeast(Nats(values), min)
    ensures
      var data := Varints.Encoded(Statistics.Less(Nats(values), min));
      Encodes(c, VarintEncoded(dt, |values|, min, data), dt, values)
  {
    hide Denote, Capture, DenoteTrivial, DenoteRle, DenoteDictionary, DenoteFixedBitWidth;
    hide DenoteNullable, DenoteSparseBool, DenoteConstant, DenoteMainlyConstant;
    hide Pow2, Blob, HasType, Varints.Encoded, Varints.Stream, Varints.Values, LeBytes, LeNat;
    var bits := 8 * dt.Size();
    var offsets := Statistics.Less(Nats(values), min);
    var data := Varints.Encoded(offsets);
    var body := LeBytes(min, dt.Size()) + data;
    BodyDenotes(c.unpack, 7, dt, |values|, body);
    LeBytesRead(min, dt.Size());
    assert body[..dt.Size()] == LeBytes(min, dt.Size()) && body[dt.Size()..] == data;
    NumbersFit(dt, values);
    forall v | v in offsets ensures Fits(v, bits) { }
    assert data[0..0 + |data|] == data;
    Varints.WriteThenRead(data, 0, offsets, bits);
    ShiftedRestores(dt, values, min);
  }

  lemma ShiftedRestores(dt: DataType, values: seq<Value>, min: nat)
    requires WellTyped(dt, values) && dt.IsNumeric() && Statistics.AtLeast(Nats(values), min)
    ensures Shifted(Statistics.Less(Nats(values), min), min, 8 * dt.Size()) == values
  {
    hide Pow2, Blob, Wrapped;
    NumbersFit(dt, values);
    forall i | 0 <= i < |values|
      ensures Shifted(Statistics.Less(Nats(values), min), min, 8 * dt.Size())[i] == values[i]
    {
      assert values[i] == Nums(Nats(values))[i];
      WrappedFits(Nat(values[i]), 8 * dt.Size());
    }
  }

  // ----- Nullable

  /** `NullableEncoding::encodeNullable`; `present` is false at the null rows. */
  method EncodeNullable(c: Codec, plan: Layout, dt: DataType, values: seq<Value>, present: seq<bool>)
    returns (r: Result<Encoded>)
    requires Lawful(c) && WellTyped(dt, values) && |values| == CountTrue(present) && |present| < 0x1_0000_0000
    ensures r.Ok? <==>
      && plan.encoding == 5 && CompatibleChild(c, plan, 0, dt.Physical(), values)
      && CompatibleChild(c, plan, 1, Bool, FlagRows(present))
    ensures r.Ok? && |r.value.bytes| < 0x1_0000_0000 ==>
      && Denote(c.unpack, r.value.bytes) == Some(NullableColumn(dt, present, values))
      && Capture(r.value.bytes) == Some(r.value.layout)
    ensures r.Ok? ==> FollowsChild(plan.children[0], Some(r.value.layout))
    ensures r.Ok? && |r.value.bytes| < 0x1_0000_0000 ==>
      var nested := ReadString(r.value.bytes[PREFIX_SIZE..]);
      && nested.Some? && ThriftyChild(c, plan, 0, nested.value.0) && ThriftyChild(c, plan, 1, nested.value.1)
    ensures r.Ok? ==> |r.value.bytes| <= SizeBound(plan, |present|, |Blob(values)|)
  {
    hide Encodes, CompatibleChild, FollowsChild, Lawful, NullableColumn, Denote, Capture, SizeBound, ChildBound, Blob;
    hide CountTrue, ThriftyChild, ReadString, WriteString;
    if plan.encoding != 5 { return Error; }
    PhysicalTyped(dt, values);
    FlagRowsTyped(present);
    var data := EncodeChild(c, plan, 0, dt.Physical(), values);
    if data.Error? { return Error; }
    var nulls := EncodeChild(c, plan, 1, Bool, FlagRows(present));
    if nulls.Error? { return Error; }
    var body := WriteString(data.value.bytes) + nulls.value.bytes;
    if PREFIX_SIZE + |body| < 0x1_0000_0000 { ReadWrittenString(data.value.bytes, nulls.value.bytes); }
    assert (Prefix(5, dt, |present|) + body)[PREFIX_SIZE..] == body;
    NullableDenotes(c, dt, values, present, data.value, nulls.value);
    NoChars(FlagRows(present));
    TwoNested(plan, data.value, nulls.value, 10, |present|, |Blob(values)|, |values|, |Blob(values)|, |present|, 0);
    r := Ok(Encoded(Prefix(5, dt, |present|) + body, data.value.layout));
  }

  function FlagRows(flags: seq<bool>): (r: seq<Value>)
    ensures |r| == |flags|
  {
    seq(|flags|, i requires 0 <= i < |flags| => Flag(flags[i]))
  }

  lemma FlagRowsTyped(flags: seq<bool>)
    requires |flags| < 0x1_0000_0000
    ensures WellTyped(Bool, FlagRows(flags)) && Flags(FlagRows(flags)) == flags
  {
    NoChars(FlagRows(flags));
  }

  lemma NullableDenotes(
      c: Codec, dt: DataType, values: seq<Value>, present: seq<bool>, data: Encoded, nulls: Encoded)
    requires WellTyped(dt, values) && |values| == CountTrue(present) && |present| < 0x1_0000_0000
    requires Encodes(c, data, dt.Physical(), values) && Encodes(c, nulls, Bool, FlagRows(present))
    ensures
      var bytes := Prefix(5, dt, |present|) + (WriteString(data.bytes) + nulls.bytes);
      |bytes| < 0x1_0000_0000 ==>
        && Denote(c.unpack, bytes) == Some(NullableColumn(dt, present, values))
        && Capture(bytes) == Some(data.layout)
  {
    hide Denote, Capture, DenoteTrivial, DenoteRle, DenoteDictionary, DenoteFixedBitWidth;
    hide DenoteSparseBool, DenoteVarint, DenoteConstant, DenoteMainlyConstant;
    hide Blob, HasType, CountTrue, NullableColumn, FlagRows, Flags, IsColumn, ReadString;
    var bytes := Prefix(5, dt, |present|) + (WriteString(data.bytes) + nulls.bytes);
    if |bytes| < 0x1_0000_0000 {
      BodyDenotes(c.unpack, 5, dt, |present|, WriteString(data.bytes) + nulls.bytes);
      ReadWrittenString(data.bytes, nulls.bytes);
      PhysicalTyped(dt, values);
      FlagRowsTyped(present);
      TypedColumn(dt.Physical(), values);
      TypedColumn(Bool, FlagRows(present));
    }
  }
}
