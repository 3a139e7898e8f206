/**
  A tablet file: the streams of one stripe after another, with metadata sections in between and at the
  end, and a postscript of fixed size.  This file says what a finished tablet is.
 */
module TabletFormat {
  import opened Wrappers
  import opened BitMath
  import opened Format

  datatype Stream = Stream(id: nat, content: seq<seq<Byte>>)

  datatype Section = Section(offset: nat, size: nat, compression: Byte)

  datatype Metadata =
    | StripeGroup(stripeCount: nat, streamOffsets: seq<nat>, streamSizes: seq<nat>)
    | Stripes(rowCounts: seq<nat>, offsets: seq<nat>, sizes: seq<nat>, groupIndices: seq<nat>)
    | Footer(rowCount: nat, stripes: Option<Section>, groups: seq<Section>, optional: map<seq<Byte>, Section>)

  // ----- what other libraries do

  /** Metadata as bytes and back, compression, and the checksum. */
  datatype Library = Library(
    serialize: Metadata -> seq<Byte>,
    parse: seq<Byte> -> Metadata,
    compress: seq<Byte> -> Option<seq<Byte>>,
    uncompress: seq<Byte> -> seq<Byte>,
    checksum: (Byte, seq<Byte>) -> nat)
  {
    ghost predicate Lawful()
    {
      && (forall m :: parse(serialize(m)) == m)
      && (forall b :: compress(b).Some? ==> uncompress(compress(b).value) == b)
      && forall t, b :: checksum(t, b) < 0x1_0000_0000_0000_0000
    }
  }

  const UNCOMPRESSED: Byte := 0
  const ZSTD: Byte := 1

  /** `MetadataBuffer` */
  function Content(lib: Library, compression: Byte, data: seq<Byte>): Option<seq<Byte>>
  {
    if compression == UNCOMPRESSED then Some(data)
    else if compression == ZSTD then Some(lib.uncompress(data))
    else None
  }

  /** The section lies in the file and holds the content. */
  predicate Holds(lib: Library, file: seq<Byte>, s: Section, content: seq<Byte>)
  {
    s.offset + s.size <= |file| && Content(lib, s.compression, file[s.offset..s.offset + s.size]) == Some(content)
  }

  lemma HoldsLater(lib: Library, file: seq<Byte>, longer: seq<Byte>, s: Section, content: seq<Byte>)
    requires Holds(lib, file, s, content) && file <= longer
    ensures Holds(lib, longer, s, content)
  {
    assert longer[s.offset..s.offset + s.size] == file[s.offset..s.offset + s.size];
  }

  // ----- the postscript

  const POSTSCRIPT_SIZE := 20
  const CHECKSUMMED_SIZE := 5
  const MAGIC_NUMBER := 0xA1FA
  const VERSION_MAJOR := 0
  const VERSION_MINOR := 1

  datatype Postscript = Postscript(
    footerSize: nat, footerCompression: Byte, checksumType: Byte, checksum: nat, majorVersion: nat, minorVersion: nat)
  {
    predicate Representable()
    {
      && footerSize < 0x1_0000_0000 && checksum < 0x1_0000_0000_0000_0000
      && majorVersion < 0x1_0000 && minorVersion < 0x1_0000
    }

    function Print(): (b: seq<Byte>)
      ensures |b| == POSTSCRIPT_SIZE
    {
      LeBytes(footerSize, 4) + [footerCompression] + [checksumType] + LeBytes(checksum, 8) + LeBytes(majorVersion, 2)
      + LeBytes(minorVersion, 2) + LeBytes(MAGIC_NUMBER, 2)
    }

    /** `Postscript::parse`; the fields count from the end. */
    static function Parse(data: seq<Byte>): (r: Result<Postscript>)
    {
      var n := |data|;
      if n < POSTSCRIPT_SIZE then Error
      else if LeNat(data[n - 2..]) != MAGIC_NUMBER then Error
      else if LeNat(data[n - 6..n - 4]) > VERSION_MAJOR then Error
      else Ok(Postscript(
        LeNat(data[n - 20..n - 16]), data[n - 16], data[n - 15], LeNat(data[n - 14..n - 6]),
        LeNat(data[n - 6..n - 4]), LeNat(data[n - 4..n - 2])))
    }
  }

  /** Parsing returns what was printed, whatever comes before it, exactly when the version can be read. */
  lemma PostscriptRoundTrip(before: seq<Byte>, p: Postscript)
    requires p.Representable()
    ensures Postscript.Parse(before + p.Print()) == if p.majorVersion > VERSION_MAJOR then Error else Ok(p)
  {
    hide LeBytes, LeNat, Pow2;
    PostscriptWords();
    var data, n := before + p.Print(), |before| + POSTSCRIPT_SIZE;
    LeBytesRead(p.footerSize, 4);
    LeBytesRead(p.checksum, 8);
    LeBytesRead(p.majorVersion, 2);
    LeBytesRead(p.minorVersion, 2);
    LeBytesRead(MAGIC_NUMBER, 2);
    assert data[n - 20..n - 16] == LeBytes(p.footerSize, 4);
    assert data[n - 14..n - 6] == LeBytes(p.checksum, 8);
    assert data[n - 6..n - 4] == LeBytes(p.majorVersion, 2);
    assert data[n - 4..n - 2] == LeBytes(p.minorVersion, 2);
    assert data[n - 2..] == LeBytes(MAGIC_NUMBER, 2);
  }

  lemma PostscriptWords()
    ensures Pow2(16) == 0x1_0000 && Pow2(32) == 0x1_0000_0000 && Pow2(64) == 0x1_0000_0000_0000_0000
  {
    WordSizes();
    PowEight(32);
    PowEight(40);
    PowEight(48);
    PowEight(56);
  }

  // ----- one stripe

  function Joined(content: seq<seq<Byte>>, n: nat): seq<Byte>
    requires n <= |content|
  {
    if n == 0 then [] else Joined(content, n - 1) + content[n - 1]
  }

  function Bytes(s: Stream): seq<Byte>
  {
    Joined(s.content, |s.content|)
  }

  /** The chunks of a stream follow one another. */
  lemma {:induction false} ChunkJoined(content: seq<seq<Byte>>, n: nat, k: nat)
    requires k < n <= |content|
    ensures |Joined(content, n)| >= |Joined(content, k)| + |content[k]|
    ensures Joined(content, n)[|Joined(content, k)|..|Joined(content, k)| + |content[k]|] == content[k]
    ensures Joined(content, 0) == [] && |Joined(content, k + 1)| == |Joined(content, k)| + |content[k]|
    decreases n
  {
    if k < n - 1 { ChunkJoined(content, n - 1, k); }
  }

  /** The bytes of a stream of a stripe; a stream listed twice is the last of them. */
  function StreamOf(streams: seq<Stream>, id: nat, n: nat): Option<seq<Byte>>
    requires n <= |streams|
  {
    if n == 0 then None
    else if streams[n - 1].id == id then Some(Bytes(streams[n - 1]))
    else StreamOf(streams, id, n - 1)
  }

  lemma {:induction false} NoStream(streams: seq<Stream>, id: nat, n: nat)
    requires n <= |streams| && forall i :: 0 <= i < |streams| ==> streams[i].id != id
    ensures StreamOf(streams, id, n) == None
  {
    if n > 0 { NoStream(streams, id, n - 1); }
  }

  /** How many bytes the first `n` streams take. */
  function StripeSize(streams: seq<Stream>, n: nat): nat
    requires n <= |streams|
  {
    if n == 0 then 0 else StripeSize(streams, n - 1) + |Bytes(streams[n - 1])|
  }

  /** Where the streams of a stripe are, relative to its start, and how long they are, in 32 bits each. */
  datatype StripeIndex = StripeIndex(offsets: seq<nat>, sizes: seq<nat>)

  const WORD: nat := 0x1_0000_0000

  /** Where the bytes of a stream start, relative to the stripe. */
  function OffsetOf(streams: seq<Stream>, id: nat, n: nat): nat
    requires n <= |streams| && StreamOf(streams, id, n).Some?
  {
    if streams[n - 1].id == id then StripeSize(streams, n - 1) else OffsetOf(streams, id, n - 1)
  }

  /** A stream lies within its stripe. */
  lemma {:induction false} StreamInStripe(streams: seq<Stream>, id: nat, n: nat)
    requires n <= |streams| && StreamOf(streams, id, n).Some?
    ensures OffsetOf(streams, id, n) + |StreamOf(streams, id, n).value| <= StripeSize(streams, n)
  {
    if streams[n - 1].id != id { StreamInStripe(streams, id, n - 1); }
  }

  /** The bytes of a stream are where they should be, and the index has place and length modulo 2^32. */
  predicate StreamStored(file: seq<Byte>, start: nat, x: StripeIndex, id: nat, streams: seq<Stream>, n: nat)
    requires id < |x.offsets| == |x.sizes| && n <= |streams|
  {
    && start + x.offsets[id] + x.sizes[id] <= |file|
    && match StreamOf(streams, id, n)
       case None => x.sizes[id] == 0
       case Some(b) =>
         var offset := OffsetOf(streams, id, n);
         && x.offsets[id] == offset % WORD && x.sizes[id] == |b| % WORD
         && start + offset + |b| <= |file| && file[start + offset..start + offset + |b|] == b
  }

  ghost predicate StripeStored(file: seq<Byte>, start: nat, x: StripeIndex, streams: seq<Stream>, n: nat)
    requires n <= |streams|
  {
    && |x.offsets| == |x.sizes| && start <= |file|
    && (forall id :: 0 <= id < |x.offsets| ==> StreamStored(file, start, x, id, streams, n))
    && forall id: nat :: |x.offsets| <= id ==> StreamOf(streams, id, n) == None
  }

  lemma StripeLater(file: seq<Byte>, longer: seq<Byte>, start: nat, x: StripeIndex, streams: seq<Stream>, n: nat)
    requires n <= |streams| && StripeStored(file, start, x, streams, n) && file <= longer
    ensures StripeStored(longer, start, x, streams, n)
  {
    hide StreamOf, StripeSize, OffsetOf;
    forall id | 0 <= id < |x.offsets| ensures StreamStored(longer, start, x, id, streams, n) {
      assert StreamStored(file, start, x, id, streams, n);
      var bytes := StreamOf(streams, id, n);
      if bytes.Some? {
        var from := start + OffsetOf(streams, id, n);
        assert longer[from..from + |bytes.value|] == file[from..from + |bytes.value|];
      }
    }
  }

  // ----- stripe groups: the indexes of consecutive stripes, flattened

  function Padded(items: seq<nat>, count: nat): (r: seq<nat>)
    ensures |r| == count
  {
    seq(count, i requires 0 <= i < count => if i < |items| then items[i] else 0)
  }

  function Flattened(lists: seq<seq<nat>>, count: nat, n: nat): (r: seq<nat>)
    requires n <= |lists|
    ensures |r| == n * count
  {
    if n == 0 then [] else Flattened(lists, count, n - 1) + Padded(lists[n - 1], count)
  }

  lemma {:induction false} FlattenedAt(lists: seq<seq<nat>>, count: nat, n: nat, k: nat, i: nat)
    requires k < n <= |lists| && i < count
    ensures 0 <= k * count + i < n * count
    ensures Flattened(lists, count, n)[k * count + i] == if i < |lists[k]| then lists[k][i] else 0
    decreases n
  {
    RowInside(count, n, k, i);
    if k < n - 1 {
      FlattenedAt(lists, count, n - 1, k, i);
    } else {
      assert Flattened(lists, count, n)[k * count + i] == Padded(lists[k], count)[i];
    }
  }

  lemma RowInside(count: nat, n: nat, k: nat, i: nat)
    requires k < n && i < count
    ensures 0 <= k * count + i < n * count
    ensures k < n - 1 ==> k * count + i < (n - 1) * count
  {
    assert (k + 1) * count <= n * count;
    assert (k + 1) * count == k * count + count;
    if k < n - 1 { assert (k + 1) * count <= (n - 1) * count; }
  }

  function Offsets(index: seq<StripeIndex>): (r: seq<seq<nat>>)
    ensures |r| == |index|
  {
    seq(|index|, k requires 0 <= k < |index| => index[k].offsets)
  }

  function Sizes(index: seq<StripeIndex>): (r: seq<seq<nat>>)
    ensures |r| == |index|
  {
    seq(|index|, k requires 0 <= k < |index| => index[k].sizes)
  }

  function MaxLength(lists: seq<seq<nat>>, n: nat): nat
    requires n <= |lists|
  {
    if n == 0 then 0 else if |lists[n - 1]| > MaxLength(lists, n - 1) then |lists[n - 1]| else MaxLength(lists, n - 1)
  }

  lemma {:induction false} MaxLengthBounds(lists: seq<seq<nat>>, n: nat, k: nat)
    requires k < n <= |lists|
    ensures |lists[k]| <= MaxLength(lists, n)
    decreases n
  {
    if k < n - 1 { MaxLengthBounds(lists, n - 1, k); }
  }

  lemma {:induction false} MaxLengthReached(lists: seq<seq<nat>>, n: nat)
    requires n <= |lists|
    ensures MaxLength(lists, n) == 0 || exists k :: 0 <= k < n && |lists[k]| == MaxLength(lists, n)
  {
    if n > 0 { MaxLengthReached(lists, n - 1); }
  }

  function GroupOf(index: seq<StripeIndex>): Metadata
  {
    var count := MaxLength(Offsets(index), |index|);
    StripeGroup(|index|, Flattened(Offsets(index), count, |index|), Flattened(Sizes(index), count, |index|))
  }

  /**
    The record of a group: for every stripe a place and a length for each stream up to the longest list, zero
    beyond its own; none is longer than that, and one is as long.
   */
  lemma GroupLaidOut(index: seq<StripeIndex>) returns (width: nat)
    requires forall k :: 0 <= k < |index| ==> |index[k].offsets| == |index[k].sizes|
    ensures
      var m := GroupOf(index);
      && m.stripeCount == |index| && |m.streamOffsets| == |m.streamSizes| == |index| * width
      && forall k, i :: 0 <= k < |index| && 0 <= i < width ==>
        && 0 <= k * width + i < |index| * width
        && m.streamOffsets[k * width + i] == (if i < |index[k].offsets| then index[k].offsets[i] else 0)
        && m.streamSizes[k * width + i] == (if i < |index[k].sizes| then index[k].sizes[i] else 0)
    ensures forall k :: 0 <= k < |index| ==> |index[k].offsets| <= width
    ensures width == 0 || exists k :: 0 <= k < |index| && |index[k].offsets| == width
  {
    hide MaxLength, Flattened;
    width := MaxLength(Offsets(index), |index|);
    MaxLengthReached(Offsets(index), |index|);
    forall k | 0 <= k < |index| ensures |index[k].offsets| <= width { MaxLengthBounds(Offsets(index), |index|, k); }
    forall k, i | 0 <= k < |index| && 0 <= i < width
      ensures 0 <= k * width + i < |index| * width
      ensures Flattened(Offsets(index), width, |index|)[k * width + i] ==
        (if i < |index[k].offsets| then index[k].offsets[i] else 0)
      ensures Flattened(Sizes(index), width, |index|)[k * width + i] ==
        (if i < |index[k].sizes| then index[k].sizes[i] else 0)
    {
      FlattenedAt(Offsets(index), width, |index|, k, i);
      FlattenedAt(Sizes(index), width, |index|, k, i);
    }
  }

  // ----- a finished tablet

  /**
    What is in a tablet: the streams of every stripe and their index, where each stripe starts, the first
    stripe of every group (and one past the last stripe), and the optional sections.
   */
  datatype Contents = Contents(
    stripes: seq<seq<Stream>>, index: seq<StripeIndex>, starts: seq<nat>, firsts: seq<nat>,
    optional: map<seq<Byte>, seq<Byte>>)

  predicate Ascending(firsts: seq<nat>)
  {
    |firsts| > 0 && firsts[0] == 0 && forall g, h :: 0 <= g < h < |firsts| ==> firsts[g] < firsts[h]
  }

  /** Group `g` is the stripes from `firsts[g]` up to `firsts[g + 1]`. */
  predicate Numbered(groupIndices: seq<nat>, firsts: seq<nat>, count: nat)
  {
    && |groupIndices| == count && Ascending(firsts) && firsts[|firsts| - 1] <= count
    && (forall g, k :: 0 <= g < |firsts| - 1 && firsts[g] <= k < firsts[g + 1] ==> groupIndices[k] == g)
    && forall k :: firsts[|firsts| - 1] <= k < count ==> groupIndices[k] == |firsts| - 1
  }

  ghost predicate AllStripes(file: seq<Byte>, c: Contents)
  {
    && |c.stripes| == |c.index| == |c.starts|
    && forall k :: 0 <= k < |c.stripes| ==> StripeStored(file, c.starts[k], c.index[k], c.stripes[k], |c.stripes[k]|)
  }

  predicate AllGroups(lib: Library, file: seq<Byte>, c: Contents, groups: seq<Section>)
  {
    && |groups| == |c.firsts| - 1 && Ascending(c.firsts) && c.firsts[|groups|] <= |c.index|
    && forall g :: 0 <= g < |groups| ==> GroupHeld(lib, file, c, groups[g], g)
  }

  predicate GroupHeld(lib: Library, file: seq<Byte>, c: Contents, s: Section, g: nat)
    requires g + 1 < |c.firsts| && c.firsts[g] < c.firsts[g + 1] <= |c.index|
  {
    Holds(lib, file, s, lib.serialize(GroupOf(c.index[c.firsts[g]..c.firsts[g + 1]])))
  }

  predicate AllOptional(lib: Library, file: seq<Byte>, c: Contents, optional: map<seq<Byte>, Section>)
  {
    optional.Keys == c.optional.Keys && forall n :: n in optional ==> Holds(lib, file, optional[n], c.optional[n])
  }
}
