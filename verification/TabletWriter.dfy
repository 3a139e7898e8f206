/**
  Writing a tablet: the class that keeps the lists and appends to the file, proved to write what `TabletRuns`
  says of its steps.
 */
module TabletWriter {
  import opened Wrappers
  import opened BitMath
  import opened Format
  import opened TabletFormat
  import opened TabletRuns

  // ----- flattening

  /** `createFlattenedVector`; none of the lists is longer than `streamCount`. */
  method CreateFlattenedVector(streamCount: nat, source: seq<seq<nat>>) returns (r: seq<nat>)
    requires AtMost(source, streamCount)
    ensures r == Flattened(source, streamCount, |source|)
  {
    var target := new nat[|source| * streamCount](_ => 0);
    var targetIndex := 0;
    for k := 0 to |source|
      invariant targetIndex == k * streamCount <= target.Length
      invariant target[..targetIndex] == Flattened(source, streamCount, k)
    {
      RoomFor(streamCount, |source|, k);
      ghost var row := Padded(source[k], streamCount);
      for i := 0 to streamCount
        invariant targetIndex == k * streamCount + i <= target.Length
        invariant target[..targetIndex] == Flattened(source, streamCount, k) + row[..i]
      {
        target[targetIndex] := if i < |source[k]| then source[k][i] else 0;
        assert row[..i + 1] == row[..i] + [row[i]];
        targetIndex := targetIndex + 1;
      }
      assert row[..streamCount] == row;
    }
    r := target[..];
    assert target[..targetIndex] == target[..];
  }

  lemma RoomFor(count: nat, n: nat, k: nat)
    requires k < n
    ensures (k + 1) * count == k * count + count <= n * count
  {
  }

  predicate AtMost(lists: seq<seq<nat>>, count: nat)
  {
    forall k :: 0 <= k < |lists| ==> |lists[k]| <= count
  }

  method FindMaxLength(lists: seq<seq<nat>>) returns (count: nat)
    ensures count == MaxLength(lists, |lists|)
  {
    count := 0;
    for k := 0 to |lists|
      invariant count == MaxLength(lists, k)
    {
      if |lists[k]| > count { count := |lists[k]|; }
    }
  }

  /** No list of the pending stripes is longer than the longest list of offsets. */
  lemma NoneLonger(index: seq<StripeIndex>)
    requires forall k :: 0 <= k < |index| ==> |index[k].offsets| == |index[k].sizes|
    ensures AtMost(Offsets(index), MaxLength(Offsets(index), |index|))
    ensures AtMost(Sizes(index), MaxLength(Offsets(index), |index|))
  {
    hide MaxLength;
    forall k | 0 <= k < |index| ensures |index[k].offsets| <= MaxLength(Offsets(index), |index|) {
      MaxLengthBounds(Offsets(index), |index|, k);
    }
  }

  method SumRows(rowCounts: seq<nat>) returns (total: nat)
    ensures total == TotalRows(rowCounts, |rowCounts|)
  {
    total := 0;
    for k := 0 to |rowCounts|
      invariant total == TotalRows(rowCounts, k)
    {
      total := (total + rowCounts[k]) % 0x1_0000_0000_0000_0000;
    }
  }

  method CountStreams(streams: seq<Stream>) returns (count: nat)
    ensures count == StreamCount(streams, |streams|)
  {
    count := 0;
    for i := 0 to |streams|
      invariant count == StreamCount(streams, i)
    {
      if streams[i].id + 1 > count { count := streams[i].id + 1; }
    }
  }

  lemma OffsetBelow(n: nat)
    ensures n % WORD <= n
  {
  }

  /** Subtracting a truncated offset leaves the length modulo 2^32. */
  lemma SizeModulo(offset: nat, size: nat)
    ensures 0 <= offset + size - offset % WORD && (offset + size - offset % WORD) % WORD == size % WORD
  {
    assert offset - offset % WORD == WORD * (offset / WORD);
  }

  lemma PendingNext(d: Draft, e: Draft, x: StripeIndex)
    requires d.Shaped() && e.Shaped() && e.groups == d.groups && e.contents.firsts == d.contents.firsts
    requires e.contents.index == d.contents.index + [x]
    ensures Offsets(e.Pending()) == Offsets(d.Pending()) + [x.offsets]
    ensures Sizes(e.Pending()) == Sizes(d.Pending()) + [x.sizes]
  {
  }

  lemma PendingParts(d: Draft)
    requires d.Shaped()
    ensures |Offsets(d.Pending())| == |Sizes(d.Pending())| == |d.Pending()|
    ensures AtMost(Offsets(d.Pending()), MaxLength(Offsets(d.Pending()), |d.Pending()|))
    ensures AtMost(Sizes(d.Pending()), MaxLength(Offsets(d.Pending()), |d.Pending()|))
  {
    NoneLonger(d.Pending());
  }

  // ----- the writer

  class TabletWriter {
    const lib: Library
    const options: Options
    var file: seq<Byte>
    /** What the checksum has been updated with. */
    var checksummed: seq<Byte>
    var rowCounts: seq<nat>
    var stripeOffsets: seq<nat>
    var stripeSizes: seq<nat>
    var stripeGroupIndices: seq<nat>
    var streamOffsets: seq<seq<nat>>
    var streamSizes: seq<seq<nat>>
    var stripeGroupIndex: nat
    var stripeGroups: seq<Section>
    var optionalSections: map<seq<Byte>, Section>
    ghost var draft: Draft

    constructor (lib: Library, options: Options)
      requires options.Lawful()
      ensures Valid() && draft == EMPTY
      ensures this.lib == lib && this.options == options
    {
      this.lib, this.options, file, checksummed := lib, options, [], [];
      rowCounts, stripeOffsets, stripeSizes, stripeGroupIndices := [], [], [], [];
      streamOffsets, streamSizes, stripeGroupIndex, stripeGroups, optionalSections := [], [], 0, [], map[];
      draft := EMPTY;
    }

    /** The lists have an entry per stripe; offsets and sizes only for the stripes since the last group. */
    ghost predicate Valid()
      reads this
    {
      && options.Lawful() && draft.Shaped() && file == checksummed == draft.file && Listed()
      && streamOffsets == Offsets(draft.Pending()) && streamSizes == Sizes(draft.Pending())
    }

    ghost predicate Listed()
      reads this
    {
      && rowCounts == draft.rowCounts && stripeOffsets == draft.contents.starts && stripeSizes == draft.stripeSizes
      && stripeGroupIndices == draft.groupIndices && stripeGroups == draft.groups
      && stripeGroupIndex == |draft.groups| && optionalSections == draft.optional
    }

    method WriteWithChecksum(data: seq<Byte>)
      modifies `file, `checksummed
      ensures file == old(file) + data && checksummed == old(checksummed) + data
    {
      file := file + data;
      checksummed := checksummed + data;
    }

    method WriteMetadata(metadata: seq<Byte>) returns (compression: Byte)
      modifies `file, `checksummed
      ensures
        var stored := Stored(lib, options, metadata);
        && compression == stored.0
        && file == old(file) + stored.1 && checksummed == old(checksummed) + stored.1
    {
      var bytes := metadata;
      compression := UNCOMPRESSED;
      if |metadata| > options.metadataCompressionThreshold {
        var compressed := lib.compress(metadata);
        if compressed.Some? {
          compression := ZSTD;
          bytes := compressed.value;
        }
      }
      WriteWithChecksum(bytes);
    }

    method CreateMetadataSection(metadata: seq<Byte>) returns (s: Section)
      modifies `file, `checksummed
      ensures
        var stored := Stored(lib, options, metadata);
        && s == SectionAt(old(file), stored)
        && file == old(file) + stored.1 && checksummed == old(checksummed) + stored.1
    {
      hide Stored;
      var offset := |file|;
      var compression := WriteMetadata(metadata);
      s := Section(offset, (|file| - offset) % WORD, compression);
    }

    /** The streams of a stripe, one after the other. */
    method WriteStreams(streams: seq<Stream>, streamCount: nat) returns (offsets: seq<nat>, sizes: seq<nat>)
      requires IdsBelow(streams, streamCount)
      modifies `file, `checksummed
      ensures StripeIndex(offsets, sizes) == IndexOf(streams, streamCount, |streams|)
      ensures file == old(file) + StripeBytes(streams, |streams|)
      ensures checksummed == old(checksummed) + StripeBytes(streams, |streams|)
    {
      hide StripeSize, Joined;
      var start := |file|;
      offsets, sizes := Zeros(streamCount), Zeros(streamCount);
      for i := 0 to |streams|
        invariant StripeIndex(offsets, sizes) == IndexOf(streams, streamCount, i)
        invariant file == old(file) + StripeBytes(streams, i)
        invariant checksummed == old(checksummed) + StripeBytes(streams, i)
      {
        var index := streams[i].id;
        ghost var place := |file| - start;
        offsets := offsets[index := (|file| - start) % WORD];
        WriteContent(streams[i].content);
        OffsetBelow(place);
        SizeModulo(place, |Bytes(streams[i])|);
        sizes := sizes[index := (|file| - (offsets[index] + start)) % WORD];
      }
    }

    method WriteContent(content: seq<seq<Byte>>)
      modifies `file, `checksummed
      ensures file == old(file) + Joined(content, |content|)
      ensures checksummed == old(checksummed) + Joined(content, |content|)
    {
      for i := 0 to |content|
        invariant file == old(file) + Joined(content, i) && checksummed == old(checksummed) + Joined(content, i)
      {
        WriteWithChecksum(content[i]);
      }
    }

    method WriteStripe(rowCount: nat, streams: seq<Stream>)
      requires Valid() && IdsBelow(streams, WORD - 1)
      modifies this
      ensures Valid() && draft == AfterStripe(lib, options, old(draft), rowCount, streams)
    {
      hide Valid, AfterStreams, Grouped;
      if rowCount == 0 { return; }
      AppendStripe(rowCount, streams);
      TryWriteStripeGroup(false);
    }

    method AppendStripe(rowCount: nat, streams: seq<Stream>)
      requires Valid()
      modifies this
      ensures Valid() && draft == AfterStreams(options, old(draft), rowCount, streams)
    {
      hide Options.Lawful, StreamCount, Options.Planned, Offsets, Sizes, IndexOf, StripeBytes, StripeSize;
      var start := |file|;
      PlannedIds(options, streams);
      var streamCount := CountStreams(streams);
      var planned := options.Planned(streams);
      var offsets, sizes := WriteStreams(planned, streamCount);
      NoteStripe(rowCount, start, offsets, sizes, AfterStreams(options, draft, rowCount, streams));
    }

    method NoteStripe(rowCount: nat, start: nat, offsets: seq<nat>, sizes: seq<nat>, ghost after: Draft)
      requires options.Lawful() && draft.Shaped() && after.Shaped() && Listed() && start <= |file|
      requires streamOffsets == Offsets(draft.Pending()) && streamSizes == Sizes(draft.Pending())
      requires file == checksummed == after.file
      requires after.contents.index == draft.contents.index + [StripeIndex(offsets, sizes)]
      requires after == draft.(
        file := after.file, contents := after.contents, rowCounts := draft.rowCounts + [rowCount],
        stripeSizes := draft.stripeSizes + [(|file| - start) % WORD],
        groupIndices := draft.groupIndices + [|draft.groups|])
      requires after.contents.starts == draft.contents.starts + [start]
      requires after.contents.firsts == draft.contents.firsts
      modifies `rowCounts, `stripeOffsets, `streamOffsets, `streamSizes, `stripeSizes, `stripeGroupIndices, `draft
      ensures Valid() && draft == after
    {
      hide Options.Lawful, Offsets, Sizes;
      PendingNext(draft, after, StripeIndex(offsets, sizes));
      rowCounts := rowCounts + [rowCount];
      stripeOffsets := stripeOffsets + [start];
      streamOffsets, streamSizes := streamOffsets + [offsets], streamSizes + [sizes];
      stripeSizes := stripeSizes + [(|file| - start) % WORD];
      stripeGroupIndices := stripeGroupIndices + [stripeGroupIndex];
      draft := after;
    }

    /** Writes the index of the pending stripes, if there are any and they need enough room. */
    method TryWriteStripeGroup(force: bool)
      requires Valid()
      modifies `file, `checksummed, `streamOffsets, `streamSizes, `stripeGroupIndex, `stripeGroups, `draft
      ensures Valid() && draft == Grouped(lib, options, old(draft), force)
    {
      hide AfterGroup, EstimatedSize;
      PendingParts(draft);
      if |streamOffsets| == 0 { return; }
      var estimatedSize := 4 + |streamOffsets| * |streamOffsets[|streamOffsets| - 1]| * 13;
      EstimateParts(streamOffsets);
      if !force && estimatedSize < options.metadataFlushThreshold { return; }
      WriteStripeGroup();
    }

    /** The metadata of the pending stripes, padded to the longest. */
    method WriteStripeGroup()
      requires Valid() && |streamOffsets| > 0
      modifies `file, `checksummed, `streamOffsets, `streamSizes, `stripeGroupIndex, `stripeGroups, `draft
      ensures Valid() && draft == AfterGroup(lib, options, old(draft))
    {
      hide Options.Lawful, MaxLength, Flattened, Stored, Padded;
      PendingParts(draft);
      var streamCount := FindMaxLength(streamOffsets);
      var offsets := CreateFlattenedVector(streamCount, streamOffsets);
      var sizes := CreateFlattenedVector(streamCount, streamSizes);
      var section := CreateMetadataSection(lib.serialize(StripeGroup(|streamOffsets|, offsets, sizes)));
      stripeGroups := stripeGroups + [section];
      stripeGroupIndex := stripeGroupIndex + 1;
      streamOffsets, streamSizes := [], [];
      draft := AfterGroup(lib, options, draft);
    }

    method WriteOptionalSection(name: seq<Byte>, content: seq<Byte>) returns (ok: bool)
      requires Valid()
      modifies `file, `checksummed, `optionalSections, `draft
      ensures ok <==> name != [] && name !in old(optionalSections)
      ensures Valid() && draft == AfterSection(lib, options, old(draft), name, content)
    {
      hide Options.Lawful, Stored, Offsets, Sizes;
      if name == [] || name in optionalSections { return false; }
      var section := CreateMetadataSection(content);
      optionalSections := optionalSections[name := section];
      draft := AfterSection(lib, options, draft, name, content);
      return true;
    }

    /** The list of stripes; there is none without stripes. */
    method WriteStripes(stripeCount: nat) returns (section: Option<Section>)
      requires Valid() && stripeCount == |rowCounts|
      modifies `file, `checksummed
      ensures section == StripesSection(lib, options, draft)
      ensures file == checksummed == WithStripes(lib, options, draft)
    {
      hide Stored, Offsets, Sizes, Options.Lawful;
      section := None;
      if stripeCount > 0 {
        var s := CreateMetadataSection(
          lib.serialize(Stripes(rowCounts, stripeOffsets, stripeSizes, stripeGroupIndices)));
        section := Some(s);
      }
    }

    /** What is left of the stripe groups, the list of stripes, and the footer. */
    method WriteDirectory() returns (compression: Byte, footerSize: nat)
      requires Valid()
      modifies `file, `checksummed, `streamOffsets, `streamSizes, `stripeGroupIndex, `stripeGroups, `draft
      ensures draft == Grouped(lib, options, old(draft), true)
      ensures
        var footer := FooterStored(lib, options, draft);
        && compression == footer.0 && footerSize == |footer.1|
        && file == checksummed == WithStripes(lib, options, draft) + footer.1
    {
      hide Options.Lawful, Stored, Offsets, Sizes, Grouped, TotalRows, StripesStored;
      var totalRows := SumRows(rowCounts);
      TryWriteStripeGroup(true);
      var stripes := WriteStripes(|rowCounts|);
      var footerStart := |file|;
      compression := WriteMetadata(lib.serialize(Footer(totalRows, stripes, stripeGroups, optionalSections)));
      footerSize := |file| - footerStart;
    }

    method WritePostscript(footerSize: nat, compression: Byte)
      requires file == checksummed
      modifies `file, `checksummed
      ensures file == old(file) + PostscriptAfter(lib, old(file), footerSize, compression, options.checksumType)
    {
      hide LeBytes;
      ghost var directory := file;
      WriteWithChecksum(LeBytes(footerSize, 4));
      WriteWithChecksum([compression]);
      var checksum := lib.checksum(options.checksumType, checksummed);
      file := file + [options.checksumType];
      file := file + LeBytes(checksum, 8);
      file := file + LeBytes(VERSION_MAJOR, 2);
      file := file + LeBytes(VERSION_MINOR, 2);
      file := file + LeBytes(MAGIC_NUMBER, 2);
      assert file == directory + PostscriptAfter(lib, directory, footerSize, compression, options.checksumType);
    }

    /** Fails if the footer is too long for its size to be stored. */
    method Close() returns (ok: bool)
      requires Valid()
      modifies `file, `checksummed, `streamOffsets, `streamSizes, `stripeGroupIndex, `stripeGroups, `draft
      ensures ok == Finished(lib, options, old(draft)).ok && file == Finished(lib, options, old(draft)).file
    {
      hide Valid, Grouped, FooterStored, WithStripes, PostscriptAfter, StripesStored;
      var compression, footerSize := WriteDirectory();
      if footerSize > 0xFFFF_FFFF { return false; }
      WritePostscript(footerSize, compression);
      ok := true;
    }
  }

  lemma EstimateParts(lists: seq<seq<nat>>)
    requires lists != []
    ensures EstimatedSize(lists) == 4 + |lists| * |lists[|lists| - 1]| * 13
  {
  }
}
