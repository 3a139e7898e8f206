/**
  What runs of the tablet writer write, as functions of their steps, and why the files are tablets.
  The index of a stripe is kept until enough of them make a group; closing writes what is left, the list of
  stripes, the footer and the postscript.
 */
module TabletRuns {
  import opened Wrappers
  import opened BitMath
  import opened Format
  import opened TabletFormat

  datatype Options = Options(
    layoutPlanner: Option<seq<Stream> -> seq<Stream>>, metadataFlushThreshold: nat, metadataCompressionThreshold: nat,
    checksumType: Byte)
  {
    function Planned(streams: seq<Stream>): seq<Stream>
    {
      if layoutPlanner.Some? then layoutPlanner.value(streams) else streams
    }

    /** A planner only reorders. */
    ghost predicate Lawful()
    {
      forall streams :: multiset(Planned(streams)) == multiset(streams)
    }
  }

  /** One past the greatest stream id. */
  function StreamCount(streams: seq<Stream>, n: nat): (count: nat)
    requires n <= |streams|
    ensures forall i :: 0 <= i < n ==> streams[i].id < count
    ensures count == 0 || exists i :: 0 <= i < n && count == streams[i].id + 1
  {
    if n == 0 then 0
    else if streams[n - 1].id + 1 > StreamCount(streams, n - 1) then streams[n - 1].id + 1
    else StreamCount(streams, n - 1)
  }

  lemma PlannedIds(o: Options, streams: seq<Stream>)
    requires o.Lawful()
    ensures IdsBelow(o.Planned(streams), StreamCount(streams, |streams|))
  {
    var planned := o.Planned(streams);
    forall i | 0 <= i < |planned| ensures planned[i].id < StreamCount(streams, |streams|) {
      assert planned[i] in multiset(planned);
      assert planned[i] in multiset(streams);
      var j :| 0 <= j < |streams| && streams[j] == planned[i];
    }
  }

  predicate IdsBelow(streams: seq<Stream>, count: nat)
  {
    forall i :: 0 <= i < |streams| ==> streams[i].id < count
  }

  // ----- the streams of one stripe

  function StripeBytes(streams: seq<Stream>, n: nat): (b: seq<Byte>)
    requires n <= |streams|
    ensures |b| == StripeSize(streams, n)
  {
    if n == 0 then [] else StripeBytes(streams, n - 1) + Bytes(streams[n - 1])
  }

  function Zeros(n: nat): (r: seq<nat>)
    ensures |r| == n && forall i :: 0 <= i < n ==> r[i] == 0
  {
    seq(n, _ => 0)
  }

  /** Place and length of each stream in 32 bits; a stream listed twice is the last of them. */
  function IndexOf(streams: seq<Stream>, count: nat, n: nat): (x: StripeIndex)
    requires n <= |streams| && IdsBelow(streams, count)
    ensures |x.offsets| == |x.sizes| == count
  {
    if n == 0 then StripeIndex(Zeros(count), Zeros(count))
    else WithStream(IndexOf(streams, count, n - 1), streams, n - 1)
  }

  function WithStream(x: StripeIndex, streams: seq<Stream>, i: nat): StripeIndex
    requires i < |streams| && streams[i].id < |x.offsets| == |x.sizes|
  {
    var id := streams[i].id;
    StripeIndex(
      x.offsets[id := StripeSize(streams, i) % WORD], x.sizes[id := |Bytes(streams[i])| % WORD])
  }

  lemma NothingStored(file: seq<Byte>, streams: seq<Stream>, count: nat)
    ensures StripeStored(file, |file|, StripeIndex(Zeros(count), Zeros(count)), streams, 0)
  {
  }

  lemma NewStream(before: seq<Byte>, start: nat, x: StripeIndex, streams: seq<Stream>, i: nat)
    requires i < |streams| && streams[i].id < |x.offsets| == |x.sizes| && |before| == start + StripeSize(streams, i)
    ensures
      StreamStored(before + Bytes(streams[i]), start, WithStream(x, streams, i), streams[i].id, streams, i + 1)
  {
    hide Bytes, StripeSize;
    var b := Bytes(streams[i]);
    assert (before + b)[|before|..|before| + |b|] == b;
  }

  lemma OtherStream(file: seq<Byte>, start: nat, x: StripeIndex, streams: seq<Stream>, i: nat, id: nat)
    requires i < |streams| && streams[i].id < |x.offsets| == |x.sizes| && id < |x.offsets| && id != streams[i].id
    requires StreamStored(file, start, x, id, streams, i)
    ensures StreamStored(file, start, WithStream(x, streams, i), id, streams, i + 1)
  {
    hide Bytes, StripeSize;
    assert StreamOf(streams, id, i + 1) == StreamOf(streams, id, i);
  }

  lemma OneMoreStream(before: seq<Byte>, start: nat, x: StripeIndex, streams: seq<Stream>, i: nat)
    requires i < |streams| && StripeStored(before, start, x, streams, i) && streams[i].id < |x.offsets|
    requires |before| == start + StripeSize(streams, i)
    ensures StripeStored(before + Bytes(streams[i]), start, WithStream(x, streams, i), streams, i + 1)
  {
    hide Bytes, StripeSize, StreamStored;
    var longer, after, n := before + Bytes(streams[i]), WithStream(x, streams, i), i + 1;
    StripeLater(before, longer, start, x, streams, i);
    forall k | 0 <= k < |after.offsets| ensures StreamStored(longer, start, after, k, streams, n) {
      if k == streams[i].id {
        NewStream(before, start, x, streams, i);
      } else {
        OtherStream(longer, start, x, streams, i, k);
      }
    }
    forall k: nat | |x.offsets| <= k ensures StreamOf(streams, k, n) == None {
      assert StreamOf(streams, k, i) == None;
    }
  }

  /** The index finds every stream. */
  lemma {:induction false} IndexStored(before: seq<Byte>, streams: seq<Stream>, count: nat, n: nat)
    requires n <= |streams| && IdsBelow(streams, count)
    ensures StripeStored(before + StripeBytes(streams, n), |before|, IndexOf(streams, count, n), streams, n)
  {
    hide StripeStored, WithStream, Bytes;
    if n == 0 {
      NothingStored(before, streams, count);
      assert before + [] == before;
    } else {
      IndexStored(before, streams, count, n - 1);
      OneMoreStream(before + StripeBytes(streams, n - 1), |before|, IndexOf(streams, count, n - 1), streams, n - 1);
      assert before + StripeBytes(streams, n - 1) + Bytes(streams[n - 1]) == before + StripeBytes(streams, n);
    }
  }

  // ----- the state of the writer

  /**
    The file so far, what it should hold, and the lists kept for closing.  `fits` says that no metadata
    section so far takes 4 GiB or more.
   */
  datatype Draft = Draft(
    file: seq<Byte>, contents: Contents, rowCounts: seq<nat>, stripeSizes: seq<nat>, groupIndices: seq<nat>,
    groups: seq<Section>, optional: map<seq<Byte>, Section>, fits: bool)
  {
    predicate Shaped()
    {
      && |contents.stripes| == |contents.index| == |contents.starts| == |rowCounts| == |stripeSizes| == |groupIndices|
      && |groups| + 1 == |contents.firsts| && contents.firsts[|groups|] <= |contents.index|
      && optional.Keys == contents.optional.Keys
      && forall k :: 0 <= k < |contents.index| ==> |contents.index[k].offsets| == |contents.index[k].sizes|
    }

    /** The stripes whose index is not in a group yet. */
    function Pending(): seq<StripeIndex>
      requires Shaped()
    {
      contents.index[contents.firsts[|groups|]..]
    }
  }

  const EMPTY := Draft([], Contents([], [], [], [0], map[]), [], [], [], [], map[], true)

  /** What is written for metadata: compressed if it is large and the compressor takes it. */
  function Stored(lib: Library, o: Options, metadata: seq<Byte>): (Byte, seq<Byte>)
  {
    var packed := lib.compress(metadata);
    if |metadata| > o.metadataCompressionThreshold && packed.Some? then (ZSTD, packed.value)
    else (UNCOMPRESSED, metadata)
  }

  function SectionAt(file: seq<Byte>, stored: (Byte, seq<Byte>)): Section
  {
    Section(|file|, |stored.1| % WORD, stored.0)
  }

  /** A section shorter than 4 GiB holds its metadata. */
  lemma SectionHolds(lib: Library, o: Options, file: seq<Byte>, metadata: seq<Byte>)
    requires lib.Lawful()
    ensures
      var stored := Stored(lib, o, metadata);
      |stored.1| < WORD ==> Holds(lib, file + stored.1, SectionAt(file, stored), metadata)
  {
    var stored := Stored(lib, o, metadata);
    assert (file + stored.1)[|file|..|file| + |stored.1|] == stored.1;
  }

  function AddStripe(c: Contents, streams: seq<Stream>, x: StripeIndex, start: nat): Contents
  {
    c.(stripes := c.stripes + [streams], index := c.index + [x], starts := c.starts + [start])
  }

  ghost function AfterStreams(o: Options, d: Draft, rowCount: nat, streams: seq<Stream>): (r: Draft)
    requires o.Lawful() && d.Shaped()
    ensures r.Shaped()
  {
    PlannedIds(o, streams);
    var planned := o.Planned(streams);
    var x := IndexOf(planned, StreamCount(streams, |streams|), |planned|);
    d.(file := d.file + StripeBytes(planned, |planned|),
       contents := AddStripe(d.contents, planned, x, |d.file|),
       rowCounts := d.rowCounts + [rowCount],
       stripeSizes := d.stripeSizes + [StripeSize(planned, |planned|) % WORD],
       groupIndices := d.groupIndices + [|d.groups|])
  }

  /**
    What the pending stripes would take: offset, size and compression type of each stream, padded to the last
    stripe.
   */
  function EstimatedSize(streamOffsets: seq<seq<nat>>): nat
  {
    if streamOffsets == [] then 0 else 4 + |streamOffsets| * |streamOffsets[|streamOffsets| - 1]| * 13
  }

  function AfterGroup(lib: Library, o: Options, d: Draft): (r: Draft)
    requires d.Shaped()
    ensures r.Shaped() && r.Pending() == []
  {
    var stored := Stored(lib, o, lib.serialize(GroupOf(d.Pending())));
    d.(file := d.file + stored.1,
       contents := d.contents.(firsts := d.contents.firsts + [|d.contents.index|]),
       groups := d.groups + [SectionAt(d.file, stored)],
       fits := d.fits && |stored.1| < WORD)
  }

  /** A group is due if it is forced or the estimate reaches the threshold. */
  function Grouped(lib: Library, o: Options, d: Draft, force: bool): (r: Draft)
    requires d.Shaped()
    ensures r.Shaped() && (force ==> r.Pending() == [])
  {
    if d.Pending() == [] || (!force && EstimatedSize(Offsets(d.Pending())) < o.metadataFlushThreshold) then d
    else AfterGroup(lib, o, d)
  }

  /** Stripes without rows are dropped. */
  ghost function AfterStripe(lib: Library, o: Options, d: Draft, rowCount: nat, streams: seq<Stream>): (r: Draft)
    requires o.Lawful() && d.Shaped()
    ensures r.Shaped()
  {
    if rowCount == 0 then d else Grouped(lib, o, AfterStreams(o, d, rowCount, streams), false)
  }

  /** A section without a name, or with one that is taken, is refused. */
  function AfterSection(lib: Library, o: Options, d: Draft, name: seq<Byte>, content: seq<Byte>): (r: Draft)
    requires d.Shaped()
    ensures r.Shaped()
  {
    if name == [] || name in d.optional then d
    else
      var stored := Stored(lib, o, content);
      d.(file := d.file + stored.1,
         contents := d.contents.(optional := d.contents.optional[name := content]),
         optional := d.optional[name := SectionAt(d.file, stored)],
         fits := d.fits && |stored.1| < WORD)
  }

  // ----- closing

  datatype Closed = Closed(
    rowCounts: seq<nat>, stripeSizes: seq<nat>, groupIndices: seq<nat>, groups: seq<Section>,
    optional: map<seq<Byte>, Section>, stripesSection: Option<Section>, footerSection: Section, checksumType: Byte)

  function TotalRows(rowCounts: seq<nat>, n: nat): nat
    requires n <= |rowCounts|
  {
    if n == 0 then 0 else (TotalRows(rowCounts, n - 1) + rowCounts[n - 1]) % 0x1_0000_0000_0000_0000
  }

  function FooterOf(d: Closed): Metadata
  {
    Footer(TotalRows(d.rowCounts, |d.rowCounts|), d.stripesSection, d.groups, d.optional)
  }

  function StripesOf(c: Contents, d: Closed): Metadata
  {
    Stripes(d.rowCounts, c.starts, d.stripeSizes, d.groupIndices)
  }

  /** The file is a tablet with these contents. */
  ghost predicate IsTablet(lib: Library, file: seq<Byte>, c: Contents, d: Closed)
  {
    Complete(lib, file, c, d) && Ends(lib, file, d)
  }

  /** Everything but the postscript. */
  ghost predicate Complete(lib: Library, file: seq<Byte>, c: Contents, d: Closed)
  {
    && AllStripes(file, c) && AllGroups(lib, file, c, d.groups) && AllOptional(lib, file, c, d.optional)
    && |d.rowCounts| == |d.stripeSizes| == |c.index| && Numbered(d.groupIndices, c.firsts, |c.index|)
    && c.firsts[|d.groups|] == |c.index|
    && DirectoryHeld(lib, file, c, d)
  }

  ghost predicate DirectoryHeld(lib: Library, file: seq<Byte>, c: Contents, d: Closed)
  {
    && (d.stripesSection.Some? <==> |c.index| > 0)
    && (d.stripesSection.Some? ==> Holds(lib, file, d.stripesSection.value, lib.serialize(StripesOf(c, d))))
    && Holds(lib, file, d.footerSection, lib.serialize(FooterOf(d)))
  }

  /** The postscript; its checksum covers the file up to and with the compression type of the footer. */
  predicate Ends(lib: Library, file: seq<Byte>, d: Closed)
  {
    && d.footerSection.offset + d.footerSection.size + POSTSCRIPT_SIZE == |file|
    && d.footerSection.size < WORD
    && file[|file| - POSTSCRIPT_SIZE..] == Postscript(
      d.footerSection.size, d.footerSection.compression, d.checksumType,
      lib.checksum(d.checksumType, file[..|file| - POSTSCRIPT_SIZE + CHECKSUMMED_SIZE]), VERSION_MAJOR,
        VERSION_MINOR).Print()
  }

  /** The list of stripes, if there are any, as it is written. */
  function StripesStored(lib: Library, o: Options, d: Draft): Option<(Byte, seq<Byte>)>
  {
    if |d.rowCounts| == 0 then None
    else
      Some(Stored(lib, o, lib.serialize(Stripes(d.rowCounts, d.contents.starts, d.stripeSizes, d.groupIndices))))
  }

  function WithStripes(lib: Library, o: Options, d: Draft): seq<Byte>
  {
    var stored := StripesStored(lib, o, d);
    if stored.None? then d.file else d.file + stored.value.1
  }

  function StripesSection(lib: Library, o: Options, d: Draft): Option<Section>
  {
    var stored := StripesStored(lib, o, d);
    if stored.None? then None else Some(SectionAt(d.file, stored.value))
  }

  function FooterStored(lib: Library, o: Options, d: Draft): (Byte, seq<Byte>)
  {
    Stored(lib, o, lib.serialize(
      Footer(TotalRows(d.rowCounts, |d.rowCounts|), StripesSection(lib, o, d), d.groups, d.optional)))
  }

  /** What closing leaves; `ok` is false if the footer is too long for its size to be stored. */
  datatype Outcome = Outcome(ok: bool, file: seq<Byte>, contents: Contents, closed: Closed, fits: bool)

  function ClosedOf(lib: Library, o: Options, d: Draft): Closed
  {
    Closed(d.rowCounts, d.stripeSizes, d.groupIndices, d.groups, d.optional, StripesSection(lib, o, d),
      SectionAt(WithStripes(lib, o, d), FooterStored(lib, o, d)), o.checksumType)
  }

  /** The postscript after `before`, whose last `footerSize` bytes are the footer. */
  function PostscriptAfter(lib: Library, before: seq<Byte>, footerSize: nat, compression: Byte, checksumType: Byte):
      (b: seq<Byte>)
    ensures |b| == POSTSCRIPT_SIZE
  {
    var checksum := lib.checksum(checksumType, before + LeBytes(footerSize, 4) + [compression]);
    Postscript(footerSize, compression, checksumType, checksum, VERSION_MAJOR, VERSION_MINOR).Print()
  }

  function Finished(lib: Library, o: Options, before: Draft): Outcome
    requires before.Shaped()
  {
    var d := Grouped(lib, o, before, true);
    var footer := FooterStored(lib, o, d);
    var directory := WithStripes(lib, o, d) + footer.1;
    var ok := |footer.1| < WORD;
    var file :=
      if ok then directory + PostscriptAfter(lib, directory, |footer.1|, footer.0, o.checksumType) else directory;
    var stripes := StripesStored(lib, o, d);
    Outcome(ok, file, d.contents, ClosedOf(lib, o, d), d.fits && ok && (stripes.Some? ==> |stripes.value.1| < WORD))
  }

  // ----- whole runs

  datatype Step =
    | WriteStripe(rowCount: nat, streams: seq<Stream>)
    | WriteOptionalSection(name: seq<Byte>, content: seq<Byte>)

  /** The draft after the first `n` steps. */
  ghost function DraftAfter(lib: Library, o: Options, steps: seq<Step>, n: nat): (d: Draft)
    requires o.Lawful() && n <= |steps|
    ensures d.Shaped()
  {
    if n == 0 then EMPTY
    else
      var d := DraftAfter(lib, o, steps, n - 1);
      match steps[n - 1]
      case WriteStripe(rowCount, streams) => AfterStripe(lib, o, d, rowCount, streams)
      case WriteOptionalSection(name, content) => AfterSection(lib, o, d, name, content)
  }

  /** What a run and closing leave. */
  ghost function TabletOf(lib: Library, o: Options, steps: seq<Step>): Outcome
    requires o.Lawful()
  {
    Finished(lib, o, DraftAfter(lib, o, steps, |steps|))
  }

  /** The stripes a run writes: those that have rows. */
  function StripesWritten(o: Options, steps: seq<Step>, n: nat): seq<seq<Stream>>
    requires n <= |steps|
  {
    if n == 0 then []
    else
      var before := StripesWritten(o, steps, n - 1);
      match steps[n - 1]
      case WriteStripe(rowCount, streams) => if rowCount > 0 then before + [o.Planned(streams)] else before
      case WriteOptionalSection(_, _) => before
  }

  /** The optional sections a run writes; a name is not written twice. */
  function SectionsWritten(steps: seq<Step>, n: nat): map<seq<Byte>, seq<Byte>>
    requires n <= |steps|
  {
    if n == 0 then map[]
    else
      var before := SectionsWritten(steps, n - 1);
      match steps[n - 1]
      case WriteStripe(_, _) => before
      case WriteOptionalSection(name, content) =>
        if name == [] || name in before then before else before[name := content]
  }

  // ----- what stays true while the file grows

  lemma AllStripesLater(file: seq<Byte>, longer: seq<Byte>, c: Contents)
    requires AllStripes(file, c) && file <= longer
    ensures AllStripes(longer, c)
  {
    hide StripeStored;
    forall k | 0 <= k < |c.stripes|
      ensures StripeStored(longer, c.starts[k], c.index[k], c.stripes[k], |c.stripes[k]|) {
      StripeLater(file, longer, c.starts[k], c.index[k], c.stripes[k], |c.stripes[k]|);
    }
  }

  lemma AllGroupsLater(lib: Library, file: seq<Byte>, longer: seq<Byte>, c: Contents, groups: seq<Section>)
    requires AllGroups(lib, file, c, groups) && file <= longer
    ensures AllGroups(lib, longer, c, groups)
  {
    hide GroupOf, Holds;
    forall g | 0 <= g < |groups| ensures GroupHeld(lib, longer, c, groups[g], g) {
      assert GroupHeld(lib, file, c, groups[g], g);
      HoldsLater(lib, file, longer, groups[g], lib.serialize(GroupOf(c.index[c.firsts[g]..c.firsts[g + 1]])));
    }
  }

  lemma AllOptionalLater(
      lib: Library, file: seq<Byte>, longer: seq<Byte>, c: Contents, optional: map<seq<Byte>, Section>)
    requires AllOptional(lib, file, c, optional) && file <= longer
    ensures AllOptional(lib, longer, c, optional)
  {
    hide Holds;
    forall n | n in optional ensures Holds(lib, longer, optional[n], c.optional[n]) {
      HoldsLater(lib, file, longer, optional[n], c.optional[n]);
    }
  }

  /** The file holds the contents; groups and optional sections only if they fit. */
  ghost predicate Sound(lib: Library, d: Draft)
  {
    && d.Shaped() && AllStripes(d.file, d.contents) && Numbered(d.groupIndices, d.contents.firsts, |d.contents.index|)
    && (d.fits ==> AllGroups(lib, d.file, d.contents, d.groups) && AllOptional(lib, d.file, d.contents, d.optional))
  }

  lemma SoundWithStreams(lib: Library, o: Options, d: Draft, rowCount: nat, streams: seq<Stream>)
    requires o.Lawful() && Sound(lib, d)
    ensures Sound(lib, AfterStreams(o, d, rowCount, streams))
  {
    hide StripeStored, Holds, GroupOf, IndexOf, StripeBytes, StripeSize;
    PlannedIds(o, streams);
    var planned, e := o.Planned(streams), AfterStreams(o, d, rowCount, streams);
    AllStripesLater(d.file, e.file, d.contents);
    IndexStored(d.file, planned, StreamCount(streams, |streams|), |planned|);
    if d.fits {
      AllGroupsLater(lib, d.file, e.file, d.contents, d.groups);
      AllOptionalLater(lib, d.file, e.file, d.contents, d.optional);
      forall g | 0 <= g < |d.groups| ensures GroupHeld(lib, e.file, e.contents, d.groups[g], g) {
        assert GroupHeld(lib, e.file, d.contents, d.groups[g], g);
        var from, to := d.contents.firsts[g], d.contents.firsts[g + 1];
        assert e.contents.index[from..to] == d.contents.index[from..to];
      }
    }
  }

  lemma SoundWithGroup(lib: Library, o: Options, d: Draft)
    requires lib.Lawful() && Sound(lib, d) && d.Pending() != []
    ensures Sound(lib, AfterGroup(lib, o, d))
  {
    hide AllStripes, Holds, GroupOf, Stored, Library.Lawful, SectionAt;
    var e, n := AfterGroup(lib, o, d), |d.groups|;
    AllStripesLater(d.file, e.file, d.contents);
    SameStripes(e.file, d.contents, e.contents);
    if e.fits {
      AllGroupsLater(lib, d.file, e.file, d.contents, d.groups);
      AllOptionalLater(lib, d.file, e.file, d.contents, d.optional);
      SectionHolds(lib, o, d.file, lib.serialize(GroupOf(d.Pending())));
      assert d.Pending() == d.contents.index[d.contents.firsts[n]..|d.contents.index|];
      forall g | 0 <= g <= n ensures GroupHeld(lib, e.file, e.contents, e.groups[g], g) {
        if g < n { assert GroupHeld(lib, e.file, d.contents, d.groups[g], g); }
      }
    }
  }

  lemma SameStripes(file: seq<Byte>, c: Contents, d: Contents)
    requires AllStripes(file, c) && c.stripes == d.stripes && c.index == d.index && c.starts == d.starts
    ensures AllStripes(file, d)
  {
    hide StripeStored;
  }

  lemma SoundWithSection(lib: Library, o: Options, d: Draft, name: seq<Byte>, content: seq<Byte>)
    requires lib.Lawful() && Sound(lib, d)
    ensures Sound(lib, AfterSection(lib, o, d, name, content))
  {
    hide AllStripes, Holds, GroupOf, Stored, Library.Lawful, SectionAt;
    var e := AfterSection(lib, o, d, name, content);
    AllStripesLater(d.file, e.file, d.contents);
    SameStripes(e.file, d.contents, e.contents);
    if e.fits {
      AllGroupsLater(lib, d.file, e.file, d.contents, d.groups);
      AllOptionalLater(lib, d.file, e.file, d.contents, d.optional);
      SectionHolds(lib, o, d.file, content);
      forall g | 0 <= g < |d.groups| ensures GroupHeld(lib, e.file, e.contents, d.groups[g], g) {
        assert GroupHeld(lib, e.file, d.contents, d.groups[g], g);
      }
    }
  }

  lemma SoundWithStripe(lib: Library, o: Options, d: Draft, rowCount: nat, streams: seq<Stream>)
    requires lib.Lawful() && o.Lawful() && Sound(lib, d)
    ensures
      var e := AfterStripe(lib, o, d, rowCount, streams);
      && Sound(lib, e) && e.contents.optional == d.contents.optional
      && e.contents.stripes == if rowCount == 0 then d.contents.stripes else d.contents.stripes + [o.Planned(streams)]
  {
    hide AllStripes, AllGroups, AllOptional, Numbered, Library.Lawful, Options.Lawful, Options.Planned, IndexOf,
      StripeBytes, StripeSize, Grouped;
    if rowCount > 0 {
      var e := AfterStreams(o, d, rowCount, streams);
      SoundWithStreams(lib, o, d, rowCount, streams);
      SoundGrouped(lib, o, e, false);
      GroupedContents(lib, o, e, false);
    }
  }

  /** After any steps the file holds what they wrote. */
  lemma {:induction false} DraftSound(lib: Library, o: Options, steps: seq<Step>, n: nat)
    requires lib.Lawful() && o.Lawful() && n <= |steps|
    ensures
      var d := DraftAfter(lib, o, steps, n);
      && Sound(lib, d) && d.contents.stripes == StripesWritten(o, steps, n)
      && d.contents.optional == SectionsWritten(steps, n)
  {
    hide Sound, Library.Lawful, Options.Lawful, Options.Planned, AfterStripe, Stored, SectionAt;
    if n == 0 {
      EmptySound(lib);
    } else {
      DraftSound(lib, o, steps, n - 1);
      var d := DraftAfter(lib, o, steps, n - 1);
      match steps[n - 1] {
        case WriteStripe(rowCount, streams) =>
          SoundWithStripe(lib, o, d, rowCount, streams);
        case WriteOptionalSection(name, content) =>
          SoundWithSection(lib, o, d, name, content);
      }
    }
  }

  lemma EmptySound(lib: Library)
    ensures Sound(lib, EMPTY)
  {
  }

  lemma SoundGrouped(lib: Library, o: Options, d: Draft, force: bool)
    requires lib.Lawful() && Sound(lib, d)
    ensures Sound(lib, Grouped(lib, o, d, force))
  {
    hide Library.Lawful, AfterGroup, EstimatedSize, AllStripes, AllGroups, AllOptional, Numbered;
    if d.Pending() != [] { SoundWithGroup(lib, o, d); }
  }

  // ----- a closed file is a tablet

  lemma DirectoryComplete(lib: Library, o: Options, d: Draft)
    requires lib.Lawful() && Sound(lib, d) && d.fits && d.Pending() == []
    requires |FooterStored(lib, o, d).1| < WORD
    requires
      var stripes := StripesStored(lib, o, d);
      stripes.Some? ==> |stripes.value.1| < WORD
    ensures Complete(lib, WithStripes(lib, o, d) + FooterStored(lib, o, d).1, d.contents, ClosedOf(lib, o, d))
  {
    hide AllStripes, AllGroups, AllOptional, Holds, Numbered, TotalRows, Stored, Library.Lawful, SectionAt;
    var c, between := ClosedOf(lib, o, d), WithStripes(lib, o, d);
    var file := between + FooterStored(lib, o, d).1;
    AllStripesLater(d.file, file, d.contents);
    AllGroupsLater(lib, d.file, file, d.contents, d.groups);
    AllOptionalLater(lib, d.file, file, d.contents, d.optional);
    assert |d.Pending()| == |d.contents.index| - d.contents.firsts[|d.groups|];
    if c.stripesSection.Some? {
      SectionHolds(lib, o, d.file, lib.serialize(StripesOf(d.contents, c)));
      HoldsLater(lib, between, file, c.stripesSection.value, lib.serialize(StripesOf(d.contents, c)));
    }
    SectionHolds(lib, o, between, lib.serialize(FooterOf(c)));
  }

  lemma CompleteLater(lib: Library, before: seq<Byte>, file: seq<Byte>, c: Contents, d: Closed)
    requires Complete(lib, before, c, d) && before <= file
    ensures Complete(lib, file, c, d)
  {
    hide AllStripes, AllGroups, AllOptional, Holds, Numbered, TotalRows;
    AllStripesLater(before, file, c);
    AllGroupsLater(lib, before, file, c, d.groups);
    AllOptionalLater(lib, before, file, c, d.optional);
    if d.stripesSection.Some? {
      HoldsLater(lib, before, file, d.stripesSection.value, lib.serialize(StripesOf(c, d)));
    }
    HoldsLater(lib, before, file, d.footerSection, lib.serialize(FooterOf(d)));
  }

  /** The postscript covers what comes before it. */
  lemma PostscriptEnds(lib: Library, before: seq<Byte>, d: Closed)
    requires d.footerSection.offset + d.footerSection.size == |before| && d.footerSection.size < WORD
    ensures
      var s := d.footerSection;
      Ends(lib, before + PostscriptAfter(lib, before, s.size, s.compression, d.checksumType), d)
  {
    hide LeBytes;
    var s := d.footerSection;
    var head := LeBytes(s.size, 4) + [s.compression];
    var post := PostscriptAfter(lib, before, s.size, s.compression, d.checksumType);
    var file := before + post;
    assert file[|file| - POSTSCRIPT_SIZE..] == post;
    assert |file| - POSTSCRIPT_SIZE + CHECKSUMMED_SIZE == |before| + 5;
    assert post[..5] == head;
    assert file[..|before| + 5] == before + head;
    assert before + LeBytes(s.size, 4) + [s.compression] == before + head;
  }

  lemma FinishedIsTablet(lib: Library, o: Options, before: Draft)
    requires lib.Lawful() && Sound(lib, before)
    ensures
      var t := Finished(lib, o, before);
      && (t.fits ==> t.ok && IsTablet(lib, t.file, t.contents, t.closed))
      && t.contents.stripes == before.contents.stripes && t.contents.optional == before.contents.optional
  {
    hide Library.Lawful, Complete, Ends, StripesStored, FooterStored, WithStripes, StripesSection, AfterGroup;
    hide EstimatedSize, PostscriptAfter, AllStripes, AllGroups, AllOptional, Numbered;
    SoundGrouped(lib, o, before, true);
    GroupedContents(lib, o, before, true);
    var t, d := Finished(lib, o, before), Grouped(lib, o, before, true);
    if t.fits {
      var footer := FooterStored(lib, o, d);
      var directory := WithStripes(lib, o, d) + footer.1;
      DirectoryComplete(lib, o, d);
      CompleteLater(lib, directory, t.file, t.contents, t.closed);
      PostscriptEnds(lib, directory, t.closed);
    }
  }

  lemma GroupedContents(lib: Library, o: Options, d: Draft, force: bool)
    requires d.Shaped()
    ensures Grouped(lib, o, d, force).contents == d.contents.(firsts := Grouped(lib, o, d, force).contents.firsts)
  {
    hide Stored, GroupOf, EstimatedSize;
  }

  /** Whatever the run: unless a metadata section takes 4 GiB or more, the file is a tablet with what was written. */
  lemma RunIsTablet(lib: Library, o: Options, steps: seq<Step>)
    requires lib.Lawful() && o.Lawful()
    ensures
      var t := TabletOf(lib, o, steps);
      && (t.fits ==> t.ok && IsTablet(lib, t.file, t.contents, t.closed))
      && t.contents.stripes == StripesWritten(o, steps, |steps|)
      && t.contents.optional == SectionsWritten(steps, |steps|)
  {
    hide Library.Lawful, Options.Lawful, DraftAfter, StripesWritten, SectionsWritten, IsTablet, Finished, Sound;
    DraftSound(lib, o, steps, |steps|);
    FinishedIsTablet(lib, o, DraftAfter(lib, o, steps, |steps|));
  }

  // ----- files below 4 GiB

  lemma {:induction false} DraftFits(lib: Library, o: Options, steps: seq<Step>, n: nat)
    requires o.Lawful() && n <= |steps|
    ensures DraftAfter(lib, o, steps, n).fits || |DraftAfter(lib, o, steps, n).file| >= WORD
  {
    hide Options.Lawful, Options.Planned, IndexOf, StripeBytes, StripeSize, Stored, SectionAt, GroupOf, EstimatedSize;
    if n > 0 { DraftFits(lib, o, steps, n - 1); }
  }

  /** In a file below 4 GiB every section fits, so it is a tablet. */
  lemma ShortFileFits(lib: Library, o: Options, steps: seq<Step>)
    requires o.Lawful() && |TabletOf(lib, o, steps).file| < WORD
    ensures TabletOf(lib, o, steps).fits
  {
    hide Options.Lawful, DraftAfter, Stored, GroupOf, EstimatedSize, TotalRows, PostscriptAfter;
    DraftFits(lib, o, steps, |steps|);
  }
}
