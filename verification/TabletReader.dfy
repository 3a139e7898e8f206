/**
  Reading a tablet: the postscript leads to the footer, the footer to the stripes and their groups, and a
  group to the streams of a stripe.
 */
module TabletReader {
  import opened Wrappers
  import opened BitMath
  import opened Format
  import opened TabletFormat
  import opened TabletRuns
  import opened TabletWriter
  import opened TabletDirectory
  import Sequences

  const INITIAL_FOOTER_SIZE := 8 * 1024 * 1024

  // ----- opening

  function ReadSection(lib: Library, file: seq<Byte>, s: Section): (r: Option<Metadata>)
  {
    if s.offset + s.size > |file| then None
    else
      var content := Content(lib, s.compression, file[s.offset..s.offset + s.size]);
      if content.None? then None else Some(lib.parse(content.value))
  }

  datatype Opened = Opened(lib: Library, file: seq<Byte>, footer: Metadata, stripes: Option<Metadata>)
  {
    predicate Valid()
    {
      && footer.Footer? && (stripes.Some? ==> stripes.value.Stripes?)
      && (stripes.Some? ==> |stripes.value.groupIndices| == |stripes.value.offsets| == StripeCount())
    }

    function StripeCount(): nat
      requires stripes.Some? ==> stripes.value.Stripes?
    {
      if stripes.None? then 0 else |stripes.value.rowCounts|
    }
  }

  function Min(a: nat, b: nat): nat
  {
    if a < b then a else b
  }

  /** The constructor: what it needs must lie in the last 8 MiB of the file. */
  function Open(lib: Library, file: seq<Byte>): (r: Result<Opened>)
    ensures r.Ok? ==> r.value.Valid()
  {
    var readSize := Min(INITIAL_FOOTER_SIZE, |file|);
    if readSize < POSTSCRIPT_SIZE then Error
    else
      var ps := Postscript.Parse(file[|file| - POSTSCRIPT_SIZE..]);
      if ps.Error? then Error
      else if ps.value.footerSize + POSTSCRIPT_SIZE > readSize then Error
      else
        var footerSection :=
          Section(|file| - POSTSCRIPT_SIZE - ps.value.footerSize, ps.value.footerSize, ps.value.footerCompression);
        var footer := ReadSection(lib, file, footerSection);
        if footer.None? || !footer.value.Footer? then Error
        else if footer.value.stripes.None? then Ok(Opened(lib, file, footer.value, None))
        else if footer.value.stripes.value.offset + readSize < |file| then Error
        else
          var stripes := ReadSection(lib, file, footer.value.stripes.value);
          if stripes.None? || !stripes.value.Stripes? then Error
          else if !StripesAgree(stripes.value, |footer.value.groups|) then Error
          else Ok(Opened(lib, file, footer.value, stripes))
  }

  /** The checks on the list of stripes. */
  predicate StripesAgree(stripes: Metadata, groupCount: nat)
    requires stripes.Stripes?
  {
    var n := |stripes.rowCounts|;
    && n > 0 && n == |stripes.offsets| == |stripes.sizes| == |stripes.groupIndices|
    && groupCount == stripes.groupIndices[n - 1] + 1
  }

  // ----- what opening a tablet gives

  /** Footer and list of stripes end within reach of the first read. */
  predicate Reachable(file: seq<Byte>, d: Closed)
  {
    && d.footerSection.size + POSTSCRIPT_SIZE <= INITIAL_FOOTER_SIZE
    && (d.stripesSection.Some? ==> |file| <= d.stripesSection.value.offset + INITIAL_FOOTER_SIZE)
  }

  function OpenedOf(lib: Library, file: seq<Byte>, c: Contents, d: Closed): Opened
  {
    Opened(lib, file, FooterOf(d), if d.stripesSection.Some? then Some(StripesOf(c, d)) else None)
  }

  /** The last stripe belongs to the last group. */
  lemma LastGroup(groupIndices: seq<nat>, firsts: seq<nat>, count: nat)
    requires Numbered(groupIndices, firsts, count) && count > 0 && firsts[|firsts| - 1] == count
    ensures groupIndices[count - 1] + 1 == |firsts| - 1
  {
    assert |firsts| > 1;
    assert firsts[|firsts| - 2] <= count - 1 < firsts[|firsts| - 2 + 1];
  }

  lemma SectionRead(lib: Library, file: seq<Byte>, s: Section, m: Metadata)
    requires lib.Lawful() && Holds(lib, file, s, lib.serialize(m))
    ensures ReadSection(lib, file, s) == Some(m)
  {
  }

  lemma PostscriptRead(lib: Library, file: seq<Byte>, d: Closed)
    requires lib.Lawful() && Ends(lib, file, d)
    ensures Postscript.Parse(file[|file| - POSTSCRIPT_SIZE..]) == Ok(Postscript(
      d.footerSection.size, d.footerSection.compression, d.checksumType,
      lib.checksum(d.checksumType, file[..|file| - POSTSCRIPT_SIZE + CHECKSUMMED_SIZE]), VERSION_MAJOR, VERSION_MINOR))
  {
    var p := Postscript(
      d.footerSection.size, d.footerSection.compression, d.checksumType,
      lib.checksum(d.checksumType, file[..|file| - POSTSCRIPT_SIZE + CHECKSUMMED_SIZE]), VERSION_MAJOR, VERSION_MINOR);
    PostscriptRoundTrip([], p);
    assert [] + p.Print() == file[|file| - POSTSCRIPT_SIZE..];
  }

  /** A tablet can be opened exactly when footer and list of stripes lie in the last 8 MiB. */
  lemma OpenTablet(lib: Library, file: seq<Byte>, c: Contents, d: Closed)
    requires lib.Lawful() && IsTablet(lib, file, c, d)
    ensures Open(lib, file) == if Reachable(file, d) then Ok(OpenedOf(lib, file, c, d)) else Error
  {
    hide AllStripes, AllGroups, AllOptional, Holds, Numbered, ReadSection, Library.Lawful, Postscript.Parse,
      Postscript.Print;
    PostscriptRead(lib, file, d);
    SectionRead(lib, file, d.footerSection, FooterOf(d));
    if d.stripesSection.Some? {
      SectionRead(lib, file, d.stripesSection.value, StripesOf(c, d));
      TabletCounts(file, lib, c, d);
      LastGroup(d.groupIndices, c.firsts, |c.index|);
    }
  }

  lemma TabletCounts(file: seq<Byte>, lib: Library, c: Contents, d: Closed)
    requires Complete(lib, file, c, d)
    ensures |c.firsts| == |d.groups| + 1 && c.firsts[|d.groups|] == |c.index|
    ensures |d.groupIndices| == |c.index| == |c.starts| == |c.stripes| == |d.rowCounts| == |d.stripeSizes|
    ensures d.optional.Keys == c.optional.Keys
  {
  }

  // ----- stripe groups

  datatype Group = Group(streamCount: nat, streamOffsets: seq<nat>, streamSizes: seq<nat>, firstStripe: nat)
  {
    /** The streams of a stripe of the group. */
    predicate Covers(stripe: nat)
    {
      && firstStripe <= stripe && |streamOffsets| == |streamSizes|
      && (stripe - firstStripe + 1) * streamCount <= |streamOffsets|
    }

    function Offset(stripe: nat, id: nat): nat
      requires Covers(stripe) && id < streamCount
    {
      Inside(stripe - firstStripe, streamCount, id, |streamOffsets|);
      streamOffsets[(stripe - firstStripe) * streamCount + id]
    }

    function Size(stripe: nat, id: nat): nat
      requires Covers(stripe) && id < streamCount
    {
      Inside(stripe - firstStripe, streamCount, id, |streamOffsets|);
      streamSizes[(stripe - firstStripe) * streamCount + id]
    }
  }

  lemma Inside(k: nat, count: nat, id: nat, total: nat)
    requires id < count && (k + 1) * count <= total
    ensures 0 <= k * count + id < total
  {
    assert (k + 1) * count == k * count + count;
  }

  /** The group of consecutive stripes, as it was written. */
  function GroupFrom(index: seq<StripeIndex>, first: nat): Group
  {
    var count := MaxLength(Offsets(index), |index|);
    Group(count, Flattened(Offsets(index), count, |index|), Flattened(Sizes(index), count, |index|), first)
  }

  /** `loadStripeGroup` and the constructor of `StripeGroup` */
  method LoadStripeGroup(o: Opened, groupIndex: nat, ghost m: Metadata, ghost first: nat) returns (r: Result<Group>)
    requires o.Valid() && o.stripes.Some?
    ensures
      && groupIndex < |o.footer.groups| && ReadSection(o.lib, o.file, o.footer.groups[groupIndex]) == Some(m)
      && m.StripeGroup? && |m.streamOffsets| == |m.streamSizes| && m.stripeCount > 0
      && IsFirst(o.stripes.value.groupIndices, groupIndex, first) ==>
      r == Ok(Group(|m.streamOffsets| / m.stripeCount, m.streamOffsets, m.streamSizes, first))
  {
    if groupIndex >= |o.footer.groups| { return Error; }
    var metadata := ReadSection(o.lib, o.file, o.footer.groups[groupIndex]);
    if metadata.None? || !metadata.value.StripeGroup? { return Error; }
    var root := metadata.value;
    if |root.streamOffsets| != |root.streamSizes| || root.stripeCount == 0 { return Error; }
    var groupIndices := o.stripes.value.groupIndices;
    for stripeIndex := 0 to |groupIndices|
      invariant forall k :: 0 <= k < stripeIndex ==> groupIndices[k] != groupIndex
    {
      if groupIndices[stripeIndex] == groupIndex {
        return Ok(Group(|root.streamOffsets| / root.stripeCount, root.streamOffsets, root.streamSizes, stripeIndex));
      }
    }
    r := Error;
  }

  predicate IsFirst(groupIndices: seq<nat>, g: nat, first: nat)
  {
    first < |groupIndices| && groupIndices[first] == g && forall k :: 0 <= k < first ==> groupIndices[k] != g
  }

  /** A group starts where the writer began it. */
  lemma FirstOfGroup(groupIndices: seq<nat>, firsts: seq<nat>, count: nat, g: nat)
    requires Numbered(groupIndices, firsts, count) && g + 1 < |firsts|
    ensures IsFirst(groupIndices, g, firsts[g])
  {
    assert firsts[g] <= firsts[g] < firsts[g + 1];
    forall k | 0 <= k < firsts[g] ensures groupIndices[k] != g { GroupBefore(groupIndices, firsts, count, g, k); }
  }

  /** Every stripe before the start of a group is in an earlier one. */
  lemma {:induction false} GroupBefore(groupIndices: seq<nat>, firsts: seq<nat>, count: nat, g: nat, k: nat)
    requires Numbered(groupIndices, firsts, count) && g < |firsts| && k < firsts[g]
    ensures groupIndices[k] < g && firsts[groupIndices[k]] <= k < firsts[groupIndices[k] + 1]
  {
    if firsts[g - 1] <= k {
      assert firsts[g - 1] <= k < firsts[g - 1 + 1];
    } else {
      GroupBefore(groupIndices, firsts, count, g - 1, k);
    }
  }

  lemma Divides(n: nat, count: nat)
    requires n > 0
    ensures n * count / n == count
  {
    var q, r := n * count / n, n * count % n;
    var gap: int, m: int := count - q, n;
    assert m * gap == r;
    assert gap >= 1 ==> m * gap >= m;
    assert gap <= -1 ==> m * gap <= -m;
  }

  /** Reading `section` gives the metadata of a group with this index, and what is made of it is that group. */
  predicate ReadsGroup(lib: Library, file: seq<Byte>, section: Section, index: seq<StripeIndex>, first: nat)
  {
    var m := GroupOf(index);
    && ReadSection(lib, file, section) == Some(m) && m.StripeGroup? && m.stripeCount > 0
    && |m.streamOffsets| == |m.streamSizes|
    && Group(|m.streamOffsets| / m.stripeCount, m.streamOffsets, m.streamSizes, first) == GroupFrom(index, first)
  }

  lemma GroupRead(lib: Library, file: seq<Byte>, section: Section, index: seq<StripeIndex>, first: nat)
    requires lib.Lawful() && Holds(lib, file, section, lib.serialize(GroupOf(index))) && |index| > 0
    ensures ReadsGroup(lib, file, section, index, first)
  {
    hide Holds, ReadSection, MaxLength, Flattened, Library.Lawful;
    SectionRead(lib, file, section, GroupOf(index));
    Divides(|index|, MaxLength(Offsets(index), |index|));
  }

  lemma GroupLoaded(lib: Library, file: seq<Byte>, c: Contents, d: Closed, g: nat)
    requires lib.Lawful() && Complete(lib, file, c, d) && g < |d.groups|
    ensures |c.firsts| == |d.groups| + 1 && c.firsts[g] < c.firsts[g + 1] <= |c.index|
    ensures IsFirst(d.groupIndices, g, c.firsts[g])
    ensures ReadsGroup(lib, file, d.groups[g], c.index[c.firsts[g]..c.firsts[g + 1]], c.firsts[g])
  {
    hide Holds, ReadsGroup, GroupOf, Library.Lawful;
    TabletCounts(file, lib, c, d);
    FirstOfGroup(d.groupIndices, c.firsts, |c.index|, g);
    assert GroupHeld(lib, file, c, d.groups[g], g);
    GroupRead(lib, file, d.groups[g], c.index[c.firsts[g]..c.firsts[g + 1]], c.firsts[g]);
  }

  // ----- loading streams

  /** What loading a stream should give: nothing if it is absent or empty, else its bytes. */
  function Wish(bytes: Option<seq<Byte>>): Option<seq<Byte>>
  {
    if bytes == Some([]) then None else bytes
  }

  /** What loading gives: as many bytes as the index says, from where it says. */
  function Loaded(file: seq<Byte>, start: nat, streams: seq<Stream>, id: nat): Option<seq<Byte>>
  {
    match StreamOf(streams, id, |streams|)
    case None => None
    case Some(b) =>
      var from, size := start + OffsetOf(streams, id, |streams|) % WORD, |b| % WORD;
      if size == 0 || from + size > |file| then None else Some(file[from..from + size])
  }

  /**
    A stream is intact if it is shorter than 4 GiB and empty, or starts within the first 4 GiB of its stripe,
    or the file happens to hold the same bytes where the truncated offset leads.
   */
  predicate Intact(file: seq<Byte>, start: nat, streams: seq<Stream>, id: nat)
  {
    match StreamOf(streams, id, |streams|)
    case None => true
    case Some(b) =>
      var offset := OffsetOf(streams, id, |streams|);
      var from := start + offset % WORD;
      && |b| < WORD
      && (b == [] || offset < WORD || (from + |b| <= |file| && file[from..from + |b|] == b))
  }

  /** Exactly the intact streams are loaded as they were written. */
  lemma LoadedIntact(file: seq<Byte>, start: nat, x: StripeIndex, streams: seq<Stream>, id: nat)
    requires StripeStored(file, start, x, streams, |streams|)
    ensures Loaded(file, start, streams, id) == Wish(StreamOf(streams, id, |streams|)) <==>
      Intact(file, start, streams, id)
  {
    hide StreamOf, OffsetOf;
    if id < |x.offsets| {
      assert StreamStored(file, start, x, id, streams, |streams|);
      var bytes := StreamOf(streams, id, |streams|);
      if bytes.Some? { Remainders(OffsetOf(streams, id, |streams|), |bytes.value|); }
    }
  }

  lemma Remainders(offset: nat, size: nat)
    ensures offset % WORD <= offset && (offset < WORD ==> offset % WORD == offset)
    ensures 0 <= size % WORD < WORD && (size < WORD ==> size % WORD == size)
  {
  }

  /** In a stripe below 4 GiB every stream is intact. */
  lemma ShortStripeIntact(file: seq<Byte>, start: nat, streams: seq<Stream>, id: nat)
    requires StripeSize(streams, |streams|) < WORD
    ensures Intact(file, start, streams, id)
  {
    if StreamOf(streams, id, |streams|).Some? { StreamInStripe(streams, id, |streams|); }
  }

  /** The entry of a stripe in its group. */
  lemma StripeInGroup(index: seq<StripeIndex>, first: nat, k: nat, id: nat)
    requires k < |index| && |index[k].sizes| == |index[k].offsets|
    ensures GroupFrom(index, first).Covers(first + k) && |index[k].offsets| <= GroupFrom(index, first).streamCount
    ensures id < GroupFrom(index, first).streamCount ==>
      && GroupFrom(index, first).Offset(first + k, id) == (if id < |index[k].offsets| then index[k].offsets[id] else 0)
      && GroupFrom(index, first).Size(first + k, id) == (if id < |index[k].offsets| then index[k].sizes[id] else 0)
  {
    hide Flattened, MaxLength;
    var offsets, sizes := Offsets(index), Sizes(index);
    var count := MaxLength(offsets, |index|);
    MaxLengthBounds(offsets, |index|, k);
    RowsInside(k, |index|, count);
    if id < count {
      FlattenedAt(offsets, count, |index|, k, id);
      FlattenedAt(sizes, count, |index|, k, id);
    }
  }

  lemma RowsInside(k: nat, n: nat, count: nat)
    requires k < n
    ensures (k + 1) * count <= n * count
  {
  }

  /** A region is read for every stream that the group has and that is not empty. */
  predicate Wanted(group: Group, stripe: nat, id: nat)
    requires group.Covers(stripe)
  {
    id < group.streamCount && group.Size(stripe, id) > 0
  }

  function Region(group: Group, stripe: nat, start: nat, id: nat): (nat, nat)
    requires group.Covers(stripe) && Wanted(group, stripe, id)
  {
    (start + group.Offset(stripe, id), group.Size(stripe, id))
  }

  predicate InFile(file: seq<Byte>, region: (nat, nat))
  {
    region.0 + region.1 <= |file|
  }

  function BytesAt(file: seq<Byte>, region: (nat, nat)): seq<Byte>
    requires InFile(file, region)
  {
    file[region.0..region.0 + region.1]
  }

  /** One stream: what its group says leads to what should be loaded. */
  lemma StreamInGroup(
      file: seq<Byte>, index: seq<StripeIndex>, first: nat, k: nat, id: nat, start: nat, streams: seq<Stream>)
    requires k < |index| && StripeStored(file, start, index[k], streams, |streams|)
    ensures GroupFrom(index, first).Covers(first + k)
    ensures
      var group := GroupFrom(index, first);
      if Wanted(group, first + k, id)
        then
          && InFile(file, Region(group, first + k, start, id))
          && Loaded(file, start, streams, id) == Some(BytesAt(file, Region(group, first + k, start, id)))
        else Loaded(file, start, streams, id) == None
  {
    hide GroupFrom, StreamOf, OffsetOf, Group.Offset, Group.Size, Group.Covers;
    var x := index[k];
    StripeInGroup(index, first, k, id);
    if id < |x.offsets| { assert StreamStored(file, start, x, id, streams, |streams|); }
  }

  method CollectRegions(group: Group, stripe: nat, start: nat, ids: seq<nat>)
    returns (regions: seq<(nat, nat)>, streamIdx: seq<nat>)
    requires group.Covers(stripe)
    ensures |regions| == |streamIdx|
    ensures forall j :: 0 <= j < |streamIdx| ==>
      && streamIdx[j] < |ids| && Wanted(group, stripe, ids[streamIdx[j]])
      && regions[j] == Region(group, stripe, start, ids[streamIdx[j]])
    ensures forall n :: 0 <= n < |ids| && Wanted(group, stripe, ids[n]) ==> n in streamIdx
  {
    hide Group.Covers, Group.Offset, Group.Size;
    regions, streamIdx := [], [];
    for i := 0 to |ids|
      invariant |regions| == |streamIdx|
      invariant forall j :: 0 <= j < |streamIdx| ==>
        && streamIdx[j] < i && Wanted(group, stripe, ids[streamIdx[j]])
        && regions[j] == Region(group, stripe, start, ids[streamIdx[j]])
      invariant forall n :: 0 <= n < i && Wanted(group, stripe, ids[n]) ==> n in streamIdx
    {
      if ids[i] >= group.streamCount { continue; }
      var streamSize := group.Size(stripe, ids[i]);
      if streamSize == 0 { continue; }
      regions := regions + [(start + group.Offset(stripe, ids[i]), streamSize)];
      streamIdx := streamIdx + [i];
    }
  }

  /** The streams of one stripe: collects the regions, then reads them. */
  method LoadFromGroup(o: Opened, group: Group, stripe: nat, ids: seq<nat>) returns (r: Result<seq<Option<seq<Byte>>>>)
    requires o.Valid() && stripe < o.StripeCount() && group.Covers(stripe)
    ensures
      var start := o.stripes.value.offsets[stripe];
      (forall i :: 0 <= i < |ids| && Wanted(group, stripe, ids[i]) ==>
        InFile(o.file, Region(group, stripe, start, ids[i]))) ==>
      && r.Ok? && |r.value| == |ids|
      && forall i :: 0 <= i < |ids| ==>
        r.value[i] ==
          if Wanted(group, stripe, ids[i]) then Some(BytesAt(o.file, Region(group, stripe, start, ids[i]))) else None
  {
    hide Group.Covers, Group.Offset, Group.Size, Wanted, Region;
    var start := o.stripes.value.offsets[stripe];
    var regions, streamIdx := CollectRegions(group, stripe, start, ids);
    var streams: seq<Option<seq<Byte>>> := seq(|ids|, _ => None);
    ghost var done: set<nat> := {};
    for j := 0 to |streamIdx|
      invariant |streams| == |ids| && forall l :: 0 <= l < j ==> streamIdx[l] in done
      invariant forall n :: n in done ==>
        n < |ids| && Wanted(group, stripe, ids[n]) && InFile(o.file, Region(group, stripe, start, ids[n]))
      invariant forall n :: 0 <= n < |ids| ==>
        streams[n] == if n in done then Some(BytesAt(o.file, Region(group, stripe, start, ids[n]))) else None
    {
      if !InFile(o.file, regions[j]) { return Error; }
      streams := streams[streamIdx[j] := Some(BytesAt(o.file, regions[j]))];
      done := done + {streamIdx[j]};
    }
    r := Ok(streams);
  }

  /** The group of a stripe of a tablet. */
  lemma GroupOfStripe(o: Opened, c: Contents, d: Closed, stripe: nat) returns (g: nat)
    requires o.lib.Lawful() && Complete(o.lib, o.file, c, d) && o == OpenedOf(o.lib, o.file, c, d) && stripe < |c.index|
    ensures |d.groupIndices| == |c.index| && g == d.groupIndices[stripe] < |d.groups| && |c.firsts| == |d.groups| + 1
    ensures c.firsts[g] <= stripe < c.firsts[g + 1] <= |c.index|
  {
    hide AllGroups, AllStripes, AllOptional, DirectoryHeld;
    TabletCounts(o.file, o.lib, c, d);
    g := d.groupIndices[stripe];
    GroupBefore(d.groupIndices, c.firsts, |c.index|, |d.groups|, stripe);
  }

  /** Loading the group of a stripe gives back what the writer flattened. */
  method GroupFor(o: Opened, stripe: nat, ghost c: Contents, ghost d: Closed) returns (r: Result<Group>)
    requires o.Valid() && stripe < o.StripeCount()
    ensures IsOpened(o, c, d) ==>
      && |d.groupIndices| == |c.index| == o.StripeCount() && d.groupIndices[stripe] + 1 < |c.firsts|
      && c.firsts[d.groupIndices[stripe]] <= stripe < c.firsts[d.groupIndices[stripe] + 1] <= |c.index|
      && r == Ok(GroupFrom(
           c.index[c.firsts[d.groupIndices[stripe]]..c.firsts[d.groupIndices[stripe] + 1]],
             c.firsts[d.groupIndices[stripe]]))
  {
    hide ReadSection, Library.Lawful, Complete, GroupFrom, GroupOf, IsFirst;
    var groupIndex := o.stripes.value.groupIndices[stripe];
    ghost var m, first := o.footer, 0;
    if IsOpened(o, c, d) {
      TabletCounts(o.file, o.lib, c, d);
      ghost var g := GroupOfStripe(o, c, d, stripe);
      GroupLoaded(o.lib, o.file, c, d, g);
      m, first := GroupOf(c.index[c.firsts[g]..c.firsts[g + 1]]), c.firsts[g];
    }
    r := LoadStripeGroup(o, groupIndex, m, first);
  }

  /** `o` is the tablet with these contents, opened. */
  ghost predicate IsOpened(o: Opened, c: Contents, d: Closed)
  {
    o.lib.Lawful() && Complete(o.lib, o.file, c, d) && o == OpenedOf(o.lib, o.file, c, d)
  }

  lemma StreamOfStripe(o: Opened, c: Contents, d: Closed, stripe: nat, id: nat, group: Group)
    requires IsOpened(o, c, d) && o.stripes.Some? && stripe < |c.index| == |d.groupIndices|
    requires
      var g := d.groupIndices[stripe];
      && g + 1 < |c.firsts| && c.firsts[g] <= stripe < c.firsts[g + 1] <= |c.index|
      && group == GroupFrom(c.index[c.firsts[g]..c.firsts[g + 1]], c.firsts[g])
    ensures stripe < |c.stripes| == |c.starts| == |o.stripes.value.offsets| && group.Covers(stripe)
    ensures o.stripes.value.offsets[stripe] == c.starts[stripe]
    ensures
      var start := c.starts[stripe];
      if Wanted(group, stripe, id)
        then
          && InFile(o.file, Region(group, stripe, start, id))
          && Loaded(o.file, start, c.stripes[stripe], id) == Some(BytesAt(o.file, Region(group, stripe, start, id)))
        else Loaded(o.file, start, c.stripes[stripe], id) == None
  {
    hide GroupFrom, Library.Lawful, StripeStored, Loaded, AllGroups, AllOptional, DirectoryHeld, Numbered;
    hide Group.Covers, Group.Offset, Group.Size, Wanted, Region, BytesAt, InFile;
    var g := d.groupIndices[stripe];
    StreamInGroup(o.file, c.index[c.firsts[g]..c.firsts[g + 1]], c.firsts[g], stripe - c.firsts[g], id,
      c.starts[stripe], c.stripes[stripe]);
  }

  /** `getStripeIdentifier` and `load` */
  method Load(o: Opened, stripe: nat, ids: seq<nat>, ghost c: Contents, ghost d: Closed)
    returns (r: Result<seq<Option<seq<Byte>>>>)
    requires o.Valid()
    ensures stripe >= o.StripeCount() ==> r == Error
    ensures stripe < o.StripeCount() && IsOpened(o, c, d) ==>
      && r.Ok? && |r.value| == |ids| && stripe < |c.stripes| == |c.starts|
      && forall i :: 0 <= i < |ids| ==> r.value[i] == Loaded(o.file, c.starts[stripe], c.stripes[stripe], ids[i])
  {
    hide IsOpened, Loaded, GroupFrom;
    hide Group.Covers, Group.Offset, Group.Size, Wanted, Region, BytesAt, InFile;
    if stripe >= o.StripeCount() { return Error; }
    var loaded := GroupFor(o, stripe, c, d);
    if IsOpened(o, c, d) { StripesLoaded(o, c, d, stripe, ids, loaded.value); }
    if loaded.Error? || !loaded.value.Covers(stripe) { return Error; }
    r := LoadFromGroup(o, loaded.value, stripe, ids);
  }

  lemma StripesLoaded(o: Opened, c: Contents, d: Closed, stripe: nat, ids: seq<nat>, group: Group)
    requires IsOpened(o, c, d) && o.stripes.Some? && stripe < |c.index| == |d.groupIndices|
    requires
      var g := d.groupIndices[stripe];
      && g + 1 < |c.firsts| && c.firsts[g] <= stripe < c.firsts[g + 1] <= |c.index|
      && group == GroupFrom(c.index[c.firsts[g]..c.firsts[g + 1]], c.firsts[g])
    ensures stripe < |c.stripes| == |c.starts| == |o.stripes.value.offsets| && group.Covers(stripe)
    ensures o.stripes.value.offsets[stripe] == c.starts[stripe]
    ensures
      var start := c.starts[stripe];
      forall i :: 0 <= i < |ids| ==>
        if Wanted(group, stripe, ids[i])
          then
            && InFile(o.file, Region(group, stripe, start, ids[i]))
            && Loaded(o.file, start, c.stripes[stripe], ids[i]) ==
                 Some(BytesAt(o.file, Region(group, stripe, start, ids[i])))
          else Loaded(o.file, start, c.stripes[stripe], ids[i]) == None
  {
    hide IsOpened, Loaded, GroupFrom, Group.Covers, Group.Offset, Group.Size, Wanted, Region, BytesAt, InFile;
    StreamOfStripe(o, c, d, stripe, 0, group);
    forall i | 0 <= i < |ids|
      ensures
        var start := c.starts[stripe];
        if Wanted(group, stripe, ids[i])
          then
            && InFile(o.file, Region(group, stripe, start, ids[i]))
            && Loaded(o.file, start, c.stripes[stripe], ids[i]) ==
                 Some(BytesAt(o.file, Region(group, stripe, start, ids[i])))
          else Loaded(o.file, start, c.stripes[stripe], ids[i]) == None
    {
      StreamOfStripe(o, c, d, stripe, ids[i], group);
    }
  }

  /** `loadOptionalSection`: nothing if there is no section of that name. */
  method LoadOptionalSection(o: Opened, name: seq<Byte>, ghost c: Contents, ghost d: Closed)
    returns (r: Result<Option<seq<Byte>>>)
    requires o.Valid()
    ensures name == [] ==> r == Error
    ensures name != [] && IsOpened(o, c, d) ==> r == Ok(if name in c.optional then Some(c.optional[name]) else None)
  {
    hide Library.Lawful, AllStripes, AllGroups, Numbered, DirectoryHeld;
    if name == [] { return Error; }
    if name !in o.footer.optional { return Ok(None); }
    var s := o.footer.optional[name];
    if s.offset + s.size > |o.file| { return Error; }
    var content := Content(o.lib, s.compression, o.file[s.offset..s.offset + s.size]);
    if content.None? { return Error; }
    r := Ok(content);
  }

  // ----- the checksum

  /** `calculateChecksum`, reading at most `chunkSize` bytes at a time. */
  method CalculateChecksum(lib: Library, file: seq<Byte>, chunkSize: nat) returns (checksum: nat)
    requires |file| >= POSTSCRIPT_SIZE && chunkSize > 0
    ensures
      var covered := |file| - POSTSCRIPT_SIZE + CHECKSUMMED_SIZE;
      checksum == lib.checksum(file[covered], file[..covered])
  {
    var postscript := file[|file| - POSTSCRIPT_SIZE..];
    var checksumType := postscript[CHECKSUMMED_SIZE];
    var updated: seq<Byte> := [];
    var sizeToRead := |file| - POSTSCRIPT_SIZE + CHECKSUMMED_SIZE;
    ghost var covered := sizeToRead;
    var offset := 0;
    while sizeToRead > 0
      invariant 0 <= offset && 0 <= sizeToRead && offset + sizeToRead == covered && updated == file[..offset]
      decreases sizeToRead
    {
      var sizeOneRead := Min(chunkSize, sizeToRead);
      updated := updated + file[offset..offset + sizeOneRead];
      sizeToRead := sizeToRead - sizeOneRead;
      offset := offset + sizeOneRead;
    }
    checksum := lib.checksum(checksumType, updated);
  }

  /** Recalculating gives the checksum of the postscript. */
  lemma ChecksumMatches(lib: Library, file: seq<Byte>, c: Contents, d: Closed)
    requires lib.Lawful() && IsTablet(lib, file, c, d)
    ensures |file| >= POSTSCRIPT_SIZE && Postscript.Parse(file[|file| - POSTSCRIPT_SIZE..]).Ok?
    ensures
      var covered := |file| - POSTSCRIPT_SIZE + CHECKSUMMED_SIZE;
      && file[covered] == d.checksumType
      && Postscript.Parse(file[|file| - POSTSCRIPT_SIZE..]).value.checksum ==
        lib.checksum(file[covered], file[..covered])
  {
    hide Complete, Library.Lawful, Postscript.Parse, LeBytes;
    PostscriptRead(lib, file, d);
    assert file[|file| - POSTSCRIPT_SIZE..][CHECKSUMMED_SIZE] == d.checksumType;
  }

  // ----- whole runs

  /**
    What an opened tablet says about the run: the number of rows is the sum of those of the stripes, modulo 2^64;
    the list of stripes has the row counts that are not zero, in order, the sizes of the stripes in 32 bits, and
    groups that end exactly when they are due; every section is compressed as asked.
   */
  lemma OpenedDirectory(lib: Library, o: Options, steps: seq<Step>)
    requires lib.Lawful() && o.Lawful()
    ensures
      var t, counts := TabletOf(lib, o, steps), RowCounts(steps, |steps|);
      t.fits && Open(lib, t.file).Ok? ==>
        var x := Open(lib, t.file).value;
        && x.footer.rowCount == Sequences.Sum(counts) % 0x1_0000_0000_0000_0000
        && (x.stripes.None? <==> forall c :: c in counts ==> c == 0)
        && (x.stripes.Some? ==>
          && x.stripes.value.rowCounts == NonZero(counts)
          && SizesExact(t.contents, x.stripes.value.sizes)
          && GroupsExact(o.metadataFlushThreshold, StripesWritten(o, steps, |steps|), x.stripes.value.groupIndices))
        && x.footer.groups == t.closed.groups && x.footer.optional == t.closed.optional
        && AllAsAsked(lib, o, t.contents, t.closed)
  {
    hide Library.Lawful, Options.Lawful, Open, TabletOf, Reachable, StripesWritten, SizesExact, GroupsExact, AllAsAsked;
    hide TotalRows, AllStripes, AllGroups, AllOptional, Holds, Numbered, Ends, NonZero, RowCounts;
    var t, counts := TabletOf(lib, o, steps), RowCounts(steps, |steps|);
    RunIsTablet(lib, o, steps);
    Directory(lib, o, steps);
    if t.fits {
      OpenTablet(lib, t.file, t.contents, t.closed);
      var kept := t.closed.rowCounts;
      TotalIsSum(kept, |kept|);
      assert kept[..|kept|] == kept;
      SumNonZero(counts);
      NoneKept(counts);
    }
  }

  predicate Writable(steps: seq<Step>)
  {
    forall i :: 0 <= i < |steps| && steps[i].WriteStripe? ==> IdsBelow(steps[i].streams, WORD - 1)
  }

  /** Any run of the writer, then close. */
  method WriteTablet(lib: Library, options: Options, steps: seq<Step>) returns (ok: bool, file: seq<Byte>)
    requires options.Lawful() && Writable(steps)
    ensures ok == TabletOf(lib, options, steps).ok && file == TabletOf(lib, options, steps).file
  {
    hide Options.Lawful, AfterStripe, AfterSection, Finished, IdsBelow, Draft.Shaped, TabletWriter.Valid;
    var writer := new TabletWriter(lib, options);
    for i := 0 to |steps|
      invariant fresh(writer) && writer.Valid() && writer.lib == lib && writer.options == options
      invariant writer.draft == DraftAfter(lib, options, steps, i)
    {
      match steps[i] {
        case WriteStripe(rowCount, streams) => writer.WriteStripe(rowCount, streams);
        case WriteOptionalSection(name, content) => var written := writer.WriteOptionalSection(name, content);
      }
    }
    ok := writer.Close();
    file := writer.file;
  }

  /**
    Whatever run wrote the file, if no metadata section takes 4 GiB or more: the checksum agrees; the file can
    be opened exactly if footer and list of stripes are within reach; and then exactly the intact streams of
    every stripe come back as they were written, and every optional section does.
   */
  method WriteAndLoad(
      lib: Library, options: Options, steps: seq<Step>, stripe: nat, ids: seq<nat>, name: seq<Byte>, chunkSize: nat)
    returns (
      streams: Result<seq<Option<seq<Byte>>>>, section: Result<Option<seq<Byte>>>, rows: Result<(nat, seq<nat>)>,
      checked: bool)
    requires lib.Lawful() && options.Lawful() && Writable(steps) && name != [] && chunkSize > 0
    ensures TabletOf(lib, options, steps).fits ==>
      var t := TabletOf(lib, options, steps);
      var stripes, sections := StripesWritten(options, steps, |steps|), SectionsWritten(steps, |steps|);
      var counts := RowCounts(steps, |steps|);
      && checked
      && (rows.Ok? <==> Reachable(t.file, t.closed))
      && (rows.Ok? ==> rows.value == (Sequences.Sum(counts) % 0x1_0000_0000_0000_0000, NonZero(counts)))
      && (section.Ok? <==> Reachable(t.file, t.closed))
      && (section.Ok? ==> section.value == if name in sections then Some(sections[name]) else None)
      && (streams.Ok? <==> Reachable(t.file, t.closed) && stripe < |stripes|)
      && (streams.Ok? ==>
        && |streams.value| == |ids| && |t.contents.starts| == |stripes|
        && forall i :: 0 <= i < |ids| ==>
          (streams.value[i] == Wish(StreamOf(stripes[stripe], ids[i], |stripes[stripe]|)) <==>
            Intact(t.file, t.contents.starts[stripe], stripes[stripe], ids[i])))
  {
    hide Library.Lawful, Options.Lawful, Open, StripesWritten, SectionsWritten, Loaded, StreamOf, Intact, Complete,
      OpenedOf, TabletOf, Reachable, Postscript.Parse, SizesExact, GroupsExact, AllAsAsked, RowCounts, NonZero;
    streams, section, rows, checked := Error, Error, Error, false;
    var ok, file := WriteTablet(lib, options, steps);
    ghost var t := TabletOf(lib, options, steps);
    ghost var c, d := t.contents, t.closed;
    RunIsTablet(lib, options, steps);
    if t.fits {
      OpenTablet(lib, file, c, d);
      OpenedCount(lib, file, c, d);
      OpenedDirectory(lib, options, steps);
      NoneKept(RowCounts(steps, |steps|));
      ChecksumMatches(lib, file, c, d);
    }
    if |file| < POSTSCRIPT_SIZE { return; }
    var checksum := CalculateChecksum(lib, file, chunkSize);
    var postscript := Postscript.Parse(file[|file| - POSTSCRIPT_SIZE..]);
    checked := postscript.Ok? && postscript.value.checksum == checksum;
    var reader := Open(lib, file);
    if reader.Error? { return; }
    var list := if reader.value.stripes.None? then [] else reader.value.stripes.value.rowCounts;
    rows := Ok((reader.value.footer.rowCount, list));
    streams := Load(reader.value, stripe, ids, c, d);
    section := LoadOptionalSection(reader.value, name, c, d);
    if t.fits && streams.Ok? { StripeIntact(lib, file, c, d, stripe, ids); }
  }

  lemma StripeIntact(lib: Library, file: seq<Byte>, c: Contents, d: Closed, stripe: nat, ids: seq<nat>)
    requires Complete(lib, file, c, d) && stripe < |c.stripes| == |c.starts|
    ensures forall i :: 0 <= i < |ids| ==>
      (Loaded(file, c.starts[stripe], c.stripes[stripe], ids[i])
        == Wish(StreamOf(c.stripes[stripe], ids[i], |c.stripes[stripe]|)))
      == Intact(file, c.starts[stripe], c.stripes[stripe], ids[i])
  {
    hide StripeStored, Loaded, StreamOf, Intact, AllGroups, AllOptional, DirectoryHeld, Numbered, Wish;
    forall i | 0 <= i < |ids|
      ensures
        (Loaded(file, c.starts[stripe], c.stripes[stripe], ids[i])
          == Wish(StreamOf(c.stripes[stripe], ids[i], |c.stripes[stripe]|)))
        == Intact(file, c.starts[stripe], c.stripes[stripe], ids[i])
    {
      LoadedIntact(file, c.starts[stripe], c.index[stripe], c.stripes[stripe], ids[i]);
    }
  }

  lemma OpenedCount(lib: Library, file: seq<Byte>, c: Contents, d: Closed)
    requires Complete(lib, file, c, d)
    ensures
      var o := OpenedOf(lib, file, c, d);
      o.lib == lib && o.file == file && o.StripeCount() == |c.stripes| == |c.starts|
  {
    TabletCounts(file, lib, c, d);
  }

  /** Everything in a file of at most 8 MiB is within reach and intact, whatever the run. */
  lemma SmallFileReadable(lib: Library, o: Options, steps: seq<Step>, stripe: nat, id: nat)
    requires lib.Lawful() && o.Lawful() && |TabletOf(lib, o, steps).file| <= INITIAL_FOOTER_SIZE
    ensures
      var t := TabletOf(lib, o, steps);
      && t.fits && Reachable(t.file, t.closed)
      && (stripe < |t.contents.stripes| ==>
        && stripe < |t.contents.starts|
        && Intact(t.file, t.contents.starts[stripe], t.contents.stripes[stripe], id))
  {
    hide Library.Lawful, Options.Lawful, TabletOf, StripesWritten, SectionsWritten, StripeStored, Intact, AllGroups;
    hide AllOptional, Numbered, StreamOf;
    var t := TabletOf(lib, o, steps);
    ShortFileFits(lib, o, steps);
    RunIsTablet(lib, o, steps);
    if stripe < |t.contents.stripes| {
      assert StripeStored(t.file, t.contents.starts[stripe], t.contents.index[stripe], t.contents.stripes[stripe],
        |t.contents.stripes[stripe]|);
      ShortFileIntact(t.file, t.contents.starts[stripe], t.contents.index[stripe], t.contents.stripes[stripe], id);
    }
  }

  lemma ShortFileIntact(file: seq<Byte>, start: nat, x: StripeIndex, streams: seq<Stream>, id: nat)
    requires |file| < WORD && StripeStored(file, start, x, streams, |streams|)
    ensures Intact(file, start, streams, id)
  {
    hide StreamOf, OffsetOf;
    if id < |x.offsets| { assert StreamStored(file, start, x, id, streams, |streams|); }
  }

  lemma PlannedAlone(o: Options, s: Stream)
    requires o.Lawful()
    ensures o.Planned([s]) == [s]
  {
    var planned := o.Planned([s]);
    assert multiset(planned) == multiset([s]);
    assert |planned| == |multiset(planned)| == 1;
    assert planned[0] in multiset(planned);
  }

  /** A stream of one chunk of 4 GiB. */
  lemma FourGiB() returns (s: Stream)
    ensures |Bytes(s)| == WORD
  {
    var b: seq<Byte> := seq(WORD, _ => 0);
    s := Stream(0, [b]);
    assert Joined(s.content, 0) == [] && [] + b == b;
    assert Joined(s.content, 1) == b;
    assert Bytes(s) == b;
  }

  /** A stream of exactly 4 GiB: its length is zero in 32 bits, so nothing is loaded. */
  lemma LostStream(lib: Library, o: Options) returns (s: Stream)
    requires lib.Lawful() && o.Lawful()
    ensures |Bytes(s)| == WORD
    ensures
      var t := TabletOf(lib, o, [WriteStripe(1, [s])]);
      && t.contents.stripes == [[s]] && StreamOf([s], s.id, 1) == Some(Bytes(s))
      && Wish(Some(Bytes(s))) == Some(Bytes(s))
      && forall start: nat :: !Intact(t.file, start, [s], s.id) && Loaded(t.file, start, [s], s.id) == None
  {
    hide Bytes, TabletOf, Library.Lawful, Options.Lawful, IsTablet;
    s := FourGiB();
    var steps := [WriteStripe(1, [s])];
    RunIsTablet(lib, o, steps);
    PlannedAlone(o, s);
    assert |steps| == 1 && steps[0] == WriteStripe(1, [s]) && StripesWritten(o, steps, 0) == [];
    assert StripesWritten(o, steps, |steps|) == [[s]];
    var t := TabletOf(lib, o, steps);
    assert StreamOf([s], s.id, |[s]|) == Some(Bytes(s));
    assert WORD % WORD == 0;
    forall start: nat ensures !Intact(t.file, start, [s], s.id) && Loaded(t.file, start, [s], s.id) == None { }
  }

  /** The same library with 8 MiB of zeros before the metadata, which it does not compress. */
  function Wordy(lib: Library): Library
  {
    lib.(
      serialize := (m: Metadata) => Blank() + lib.serialize(m),
      parse := (b: seq<Byte>) =>
        if |b| < INITIAL_FOOTER_SIZE then lib.parse(b) else lib.parse(b[INITIAL_FOOTER_SIZE..]),
      compress := (b: seq<Byte>) => None)
  }

  function Blank(): (b: seq<Byte>)
    ensures |b| == INITIAL_FOOTER_SIZE
  {
    seq(INITIAL_FOOTER_SIZE, _ => 0)
  }

  /** Tablets out of reach exist: even the empty one, if its footer takes more than 8 MiB. */
  lemma OutOfReach(lib: Library, o: Options)
    requires lib.Lawful() && o.Lawful() && |lib.serialize(Footer(0, None, [], map[]))| < WORD - INITIAL_FOOTER_SIZE
    ensures
      var t := TabletOf(Wordy(lib), o, []);
      && Wordy(lib).Lawful() && t.fits && IsTablet(Wordy(lib), t.file, t.contents, t.closed)
      && Open(Wordy(lib), t.file) == Error
  {
    hide Options.Lawful, Open, IsTablet, PostscriptAfter;
    var wordy, t := Wordy(lib), TabletOf(Wordy(lib), o, []);
    WordyLawful(lib);
    assert EMPTY.Pending() == [];
    assert FooterStored(wordy, o, EMPTY).1 == Blank() + lib.serialize(Footer(0, None, [], map[]));
    RunIsTablet(wordy, o, []);
    OpenTablet(wordy, t.file, t.contents, t.closed);
  }

  lemma WordyLawful(lib: Library)
    requires lib.Lawful()
    ensures Wordy(lib).Lawful()
  {
    forall m ensures Wordy(lib).parse(Wordy(lib).serialize(m)) == m {
      assert (Blank() + lib.serialize(m))[INITIAL_FOOTER_SIZE..] == lib.serialize(m);
    }
  }

  // ----- planners

  predicate DistinctIds(streams: seq<Stream>)
  {
    forall i, j :: 0 <= i < j < |streams| ==> streams[i].id != streams[j].id
  }

  lemma {:induction false} OwnStream(streams: seq<Stream>, i: nat, n: nat)
    requires DistinctIds(streams) && i < n <= |streams|
    ensures StreamOf(streams, streams[i].id, n) == Some(Bytes(streams[i]))
    decreases n
  {
    if i < n - 1 { OwnStream(streams, i, n - 1); }
  }

  lemma OnceEach(streams: seq<Stream>, s: Stream)
    requires DistinctIds(streams) && s in streams
    ensures multiset(streams)[s] == 1
  {
    var i :| 0 <= i < |streams| && streams[i] == s;
    assert streams == streams[..i] + [s] + streams[i + 1..];
    assert s !in streams[..i] && s !in streams[i + 1..];
  }

  lemma TwiceEqual(streams: seq<Stream>, i: nat, j: nat)
    requires i < j < |streams| && streams[i] == streams[j]
    ensures multiset(streams)[streams[i]] >= 2
  {
    assert streams == streams[..j] + [streams[j]] + streams[j + 1..];
    assert streams[i] in streams[..j];
  }

  lemma StillDistinct(streams: seq<Stream>, planned: seq<Stream>)
    requires DistinctIds(streams) && multiset(planned) == multiset(streams)
    ensures DistinctIds(planned)
  {
    forall i, j | 0 <= i < j < |planned| ensures planned[i].id != planned[j].id {
      assert planned[i] in multiset(planned) && planned[j] in multiset(planned);
      assert planned[i] in streams && planned[j] in streams;
      if planned[i] == planned[j] {
        TwiceEqual(planned, i, j);
        OnceEach(streams, planned[i]);
      }
    }
  }

  /** A layout planner does not change what is loaded, as long as no stream is listed twice. */
  lemma PlannerKeepsStreams(streams: seq<Stream>, planned: seq<Stream>, id: nat)
    requires DistinctIds(streams) && multiset(planned) == multiset(streams)
    ensures StreamOf(planned, id, |planned|) == StreamOf(streams, id, |streams|)
  {
    StillDistinct(streams, planned);
    if exists i :: 0 <= i < |streams| && streams[i].id == id {
      var i :| 0 <= i < |streams| && streams[i].id == id;
      OwnStream(streams, i, |streams|);
      assert streams[i] in multiset(planned);
      var j :| 0 <= j < |planned| && planned[j] == streams[i];
      OwnStream(planned, j, |planned|);
    } else {
      forall j | 0 <= j < |planned| ensures planned[j].id != id {
        assert planned[j] in multiset(planned);
        assert planned[j] in streams;
      }
      NoStream(streams, id, |streams|);
      NoStream(planned, id, |planned|);
    }
  }
}
