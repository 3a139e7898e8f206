/**
  What the directory of a tablet says, from the steps of the run alone: how many rows there are, which stripes
  make a group, how long a stripe is, and which metadata is compressed.
 */
module TabletDirectory {
  import opened Wrappers
  import opened BitMath
  import opened Sequences
  import opened Format
  import opened TabletFormat
  import opened TabletRuns

  // ----- row counts

  /** The row counts of the stripes asked for, in order. */
  function RowCounts(steps: seq<Step>, n: nat): seq<nat>
    requires n <= |steps|
  {
    if n == 0 then []
    else if steps[n - 1].WriteStripe? then RowCounts(steps, n - 1) + [steps[n - 1].rowCount]
    else RowCounts(steps, n - 1)
  }

  function NonZero(counts: seq<nat>): (r: seq<nat>)
    ensures forall c :: c in r ==> c > 0
  {
    if counts == [] then []
    else
      var before, c := NonZero(counts[..|counts| - 1]), counts[|counts| - 1];
      if c > 0 then before + [c] else before
  }

  lemma NonZeroNext(counts: seq<nat>, c: nat)
    ensures NonZero(counts + [c]) == if c > 0 then NonZero(counts) + [c] else NonZero(counts)
  {
    assert (counts + [c])[..|counts|] == counts;
  }

  lemma {:induction false} SumNonZero(counts: seq<nat>)
    ensures Sum(NonZero(counts)) == Sum(counts)
  {
    if counts != [] {
      var n := |counts| - 1;
      SumNonZero(counts[..n]);
      assert counts == counts[..n] + [counts[n]];
      SumConcat(counts[..n], [counts[n]]);
      SumConcat(NonZero(counts[..n]), [counts[n]]);
      assert Sum([counts[n]][1..]) == 0;
    }
  }

  lemma {:induction false} NoneKept(counts: seq<nat>)
    ensures NonZero(counts) == [] <==> forall c :: c in counts ==> c == 0
  {
    if counts != [] {
      var n := |counts| - 1;
      NoneKept(counts[..n]);
      assert counts == counts[..n] + [counts[n]];
      forall c | c in counts[..n] ensures c in counts { }
      if NonZero(counts) == [] {
        forall c | c in counts ensures c == 0 { assert c in counts[..n] || c == counts[n]; }
      } else if forall c :: c in counts ==> c == 0 {
        assert counts[n] in counts;
      }
    }
  }

  /** Adding up modulo 2^64 gives the sum modulo 2^64. */
  lemma {:induction false} TotalIsSum(counts: seq<nat>, n: nat)
    requires n <= |counts|
    ensures TotalRows(counts, n) == Sum(counts[..n]) % 0x1_0000_0000_0000_0000
  {
    if n > 0 {
      TotalIsSum(counts, n - 1);
      SumNext(counts, n - 1);
      AddModulo(Sum(counts[..n - 1]), counts[n - 1], 0x1_0000_0000_0000_0000);
    }
  }

  lemma AddModulo(a: nat, b: nat, m: nat)
    requires m > 0
    ensures (a % m + b) % m == (a + b) % m
  {
    DivModUnique(a % m + b, m, (a + b) / m - a / m, (a + b) % m);
  }

  lemma {:induction false} DraftRowCounts(lib: Library, o: Options, steps: seq<Step>, n: nat)
    requires o.Lawful() && n <= |steps|
    ensures DraftAfter(lib, o, steps, n).rowCounts == NonZero(RowCounts(steps, n))
  {
    hide Options.Lawful, Options.Planned, IndexOf, StripeBytes, StripeSize, Stored, SectionAt, GroupOf, EstimatedSize;
    hide NonZero;
    if n == 0 {
      NothingCounted();
    } else {
      DraftRowCounts(lib, o, steps, n - 1);
      if steps[n - 1].WriteStripe? { NonZeroNext(RowCounts(steps, n - 1), steps[n - 1].rowCount); }
    }
  }

  lemma NothingCounted()
    ensures NonZero([]) == []
  {
  }

  // ----- how long a stripe is

  function StreamLengths(streams: seq<Stream>): (r: seq<nat>)
    ensures |r| == |streams|
  {
    seq<nat>(|streams|, i requires 0 <= i < |streams| => |Bytes(streams[i])|)
  }

  lemma {:induction false} SizeIsSum(streams: seq<Stream>, n: nat)
    requires n <= |streams|
    ensures StripeSize(streams, n) == Sum(StreamLengths(streams)[..n])
  {
    hide Bytes;
    if n > 0 {
      SizeIsSum(streams, n - 1);
      SumNext(StreamLengths(streams), n - 1);
    }
  }

  // ----- which stripes make a group

  /** One past the greatest of the ids; nothing if there are none. */
  ghost predicate IsWidth(streams: seq<Stream>, width: nat)
  {
    && (forall i :: 0 <= i < |streams| ==> streams[i].id < width)
    && (width == 0 || exists i :: 0 <= i < |streams| && streams[i].id + 1 == width)
  }

  lemma WidthOfPlanned(o: Options, streams: seq<Stream>)
    requires o.Lawful()
    ensures IsWidth(o.Planned(streams), StreamCount(streams, |streams|))
  {
    PlannedIds(o, streams);
    var planned, width := o.Planned(streams), StreamCount(streams, |streams|);
    if width > 0 {
      var i :| 0 <= i < |streams| && width == streams[i].id + 1;
      assert streams[i] in multiset(streams);
      assert streams[i] in multiset(planned);
      var j :| 0 <= j < |planned| && planned[j] == streams[i];
    }
  }

  /** 13 bytes for every stream of the stripes [first, k], all as wide as the last one, reach the threshold. */
  predicate Due(threshold: nat, first: nat, k: nat, width: nat)
  {
    first <= k && 4 + 13 * width * (k + 1 - first) >= threshold
  }

  /** The group of stripe `k`, or of the next stripe if there is none yet. */
  function GroupAt(groupIndices: seq<nat>, groups: nat, k: nat): nat
  {
    if k < |groupIndices| then groupIndices[k] else groups
  }

  /** After every stripe the group ends exactly if it is due. */
  ghost predicate GroupsDue(o: Options, d: Draft)
    requires d.Shaped()
  {
    forall k :: 0 <= k < |d.groupIndices| ==>
      && d.groupIndices[k] < |d.contents.firsts|
      && GroupAt(d.groupIndices, |d.groups|, k + 1) == d.groupIndices[k] +
        if Due(o.metadataFlushThreshold, d.contents.firsts[d.groupIndices[k]], k, |d.contents.index[k].offsets|)
        then 1 else 0
  }

  /** The index of every stripe has room for its streams, and no more. */
  ghost predicate WidthsExact(c: Contents)
  {
    |c.index| == |c.stripes| && forall k :: 0 <= k < |c.index| ==> IsWidth(c.stripes[k], |c.index[k].offsets|)
  }

  /** The size of every stripe is the sum of the lengths of its streams, in 32 bits. */
  predicate SizesExact(c: Contents, sizes: seq<nat>)
  {
    |sizes| == |c.stripes| && forall k :: 0 <= k < |sizes| ==> sizes[k] == Sum(StreamLengths(c.stripes[k])) % WORD
  }

  lemma StreamsDirectory(o: Options, d: Draft, rowCount: nat, streams: seq<Stream>)
    requires o.Lawful() && d.Shaped() && WidthsExact(d.contents) && SizesExact(d.contents, d.stripeSizes)
    ensures
      var e := AfterStreams(o, d, rowCount, streams);
      WidthsExact(e.contents) && SizesExact(e.contents, e.stripeSizes)
  {
    hide Options.Lawful, Options.Planned, StripeBytes, StripeSize, IsWidth;
    PlannedIds(o, streams);
    WidthOfPlanned(o, streams);
    var planned := o.Planned(streams);
    SizeIsSum(planned, |planned|);
    assert StreamLengths(planned)[..|planned|] == StreamLengths(planned);
  }

  lemma EstimateIsDue(o: Options, d: Draft)
    requires d.Shaped() && d.Pending() != []
    ensures
      var last := |d.contents.index| - 1;
      EstimatedSize(Offsets(d.Pending())) >= o.metadataFlushThreshold <==>
        Due(o.metadataFlushThreshold, d.contents.firsts[|d.groups|], last, |d.contents.index[last].offsets|)
  {
    var last, first := |d.contents.index| - 1, d.contents.firsts[|d.groups|];
    var lists, n, width := Offsets(d.Pending()), last + 1 - first, |d.contents.index[last].offsets|;
    assert |lists| == n && lists[n - 1] == d.contents.index[last].offsets;
    assert n * width * 13 == 13 * width * n;
  }

  /** After a stripe has been added, and its group written if it is due. */
  lemma StripeGrouped(lib: Library, o: Options, d: Draft, rowCount: nat, streams: seq<Stream>)
    requires o.Lawful() && d.Shaped() && GroupsDue(o, d)
    ensures GroupsDue(o, Grouped(lib, o, AfterStreams(o, d, rowCount, streams), false))
  {
    hide Options.Lawful, Options.Planned, IndexOf, StripeBytes, StripeSize, Stored, SectionAt, GroupOf, EstimatedSize;
    hide Due;
    PlannedIds(o, streams);
    var e := AfterStreams(o, d, rowCount, streams);
    var r := Grouped(lib, o, e, false);
    var last := |d.groupIndices|;
    assert e.Pending() != [];
    EstimateIsDue(o, e);
    forall k | 0 <= k <= last
      ensures r.groupIndices[k] < |r.contents.firsts|
      ensures GroupAt(r.groupIndices, |r.groups|, k + 1) == r.groupIndices[k] +
        if Due(o.metadataFlushThreshold, r.contents.firsts[r.groupIndices[k]], k, |r.contents.index[k].offsets|)
        then 1 else 0
    {
      if k < last { assert GroupAt(r.groupIndices, |r.groups|, k + 1) == GroupAt(d.groupIndices, |d.groups|, k + 1); }
    }
  }

  /** Row counts, widths, sizes and groups, after any steps. */
  lemma {:induction false} DraftDirectory(lib: Library, o: Options, steps: seq<Step>, n: nat)
    requires o.Lawful() && n <= |steps|
    ensures
      var d := DraftAfter(lib, o, steps, n);
      WidthsExact(d.contents) && SizesExact(d.contents, d.stripeSizes) && GroupsDue(o, d)
  {
    hide Options.Lawful, AfterStreams, Stored, SectionAt, EstimatedSize, Due, IsWidth, Sum;
    if n > 0 {
      DraftDirectory(lib, o, steps, n - 1);
      var d := DraftAfter(lib, o, steps, n - 1);
      match steps[n - 1] {
        case WriteStripe(rowCount, streams) =>
          if rowCount > 0 {
            StreamsDirectory(o, d, rowCount, streams);
            StripeGrouped(lib, o, d, rowCount, streams);
            GroupedContents(lib, o, AfterStreams(o, d, rowCount, streams), false);
          }
        case WriteOptionalSection(_, _) =>
      }
    }
  }

  // ----- which metadata is compressed

  /** Compressed exactly if it is longer than the threshold and the compressor takes it; the size is 32 bits. */
  predicate AsAsked(lib: Library, o: Options, s: Section, content: seq<Byte>)
  {
    var packed := lib.compress(content);
    if |content| > o.metadataCompressionThreshold && packed.Some?
    then s.compression == ZSTD && s.size == |packed.value| % WORD
    else s.compression == UNCOMPRESSED && s.size == |content| % WORD
  }

  ghost predicate GroupsAsAsked(lib: Library, o: Options, c: Contents, groups: seq<Section>)
  {
    && |groups| + 1 == |c.firsts| && Ascending(c.firsts) && c.firsts[|groups|] <= |c.index|
    && forall g :: 0 <= g < |groups| ==>
      AsAsked(lib, o, groups[g], lib.serialize(GroupOf(c.index[c.firsts[g]..c.firsts[g + 1]])))
  }

  ghost predicate OptionalAsAsked(lib: Library, o: Options, c: Contents, optional: map<seq<Byte>, Section>)
  {
    && optional.Keys == c.optional.Keys
    && forall name :: name in optional ==> AsAsked(lib, o, optional[name], c.optional[name])
  }

  lemma SectionAsAsked(lib: Library, o: Options, file: seq<Byte>, content: seq<Byte>)
    ensures AsAsked(lib, o, SectionAt(file, Stored(lib, o, content)), content)
  {
  }

  lemma MoreStripes(lib: Library, o: Options, d: Draft, rowCount: nat, streams: seq<Stream>)
    requires o.Lawful() && d.Shaped() && GroupsAsAsked(lib, o, d.contents, d.groups)
    ensures
      var e := AfterStreams(o, d, rowCount, streams);
      GroupsAsAsked(lib, o, e.contents, e.groups)
  {
    hide Options.Lawful, Options.Planned, StripeBytes, StripeSize, IndexOf, GroupOf, AsAsked;
    PlannedIds(o, streams);
    var e := AfterStreams(o, d, rowCount, streams);
    forall g | 0 <= g < |d.groups|
      ensures e.contents.index[e.contents.firsts[g]..e.contents.firsts[g + 1]] ==
        d.contents.index[d.contents.firsts[g]..d.contents.firsts[g + 1]] { }
  }

  lemma MoreGroups(lib: Library, o: Options, d: Draft, force: bool)
    requires d.Shaped() && GroupsAsAsked(lib, o, d.contents, d.groups)
    ensures GroupsAsAsked(lib, o, Grouped(lib, o, d, force).contents, Grouped(lib, o, d, force).groups)
  {
    hide EstimatedSize, GroupOf, AsAsked, Stored, SectionAt;
    if d.Pending() != [] {
      var n, metadata := |d.groups|, lib.serialize(GroupOf(d.Pending()));
      SectionAsAsked(lib, o, d.file, metadata);
      assert d.Pending() == d.contents.index[d.contents.firsts[n]..|d.contents.index|];
    }
  }

  lemma {:induction false} DraftAsAsked(lib: Library, o: Options, steps: seq<Step>, n: nat)
    requires o.Lawful() && n <= |steps|
    ensures
      var d := DraftAfter(lib, o, steps, n);
      GroupsAsAsked(lib, o, d.contents, d.groups) && OptionalAsAsked(lib, o, d.contents, d.optional)
  {
    hide Options.Lawful, GroupOf, EstimatedSize, AsAsked, Stored, SectionAt, GroupsAsAsked, AfterGroup;
    if n == 0 {
      NoGroupsAsked(lib, o);
    } else {
      DraftAsAsked(lib, o, steps, n - 1);
      var d := DraftAfter(lib, o, steps, n - 1);
      match steps[n - 1] {
        case WriteStripe(rowCount, streams) =>
          if rowCount > 0 {
            MoreStripes(lib, o, d, rowCount, streams);
            MoreGroups(lib, o, AfterStreams(o, d, rowCount, streams), false);
            GroupedOptional(lib, o, AfterStreams(o, d, rowCount, streams), false);
          }
        case WriteOptionalSection(name, content) =>
          SectionAsAsked(lib, o, d.file, content);
          SameGroups(lib, o, d.contents, DraftAfter(lib, o, steps, n).contents, d.groups);
      }
    }
  }

  lemma NoGroupsAsked(lib: Library, o: Options)
    ensures GroupsAsAsked(lib, o, EMPTY.contents, EMPTY.groups)
  {
  }

  lemma SameGroups(lib: Library, o: Options, c: Contents, e: Contents, groups: seq<Section>)
    requires GroupsAsAsked(lib, o, c, groups) && e.firsts == c.firsts && e.index == c.index
    ensures GroupsAsAsked(lib, o, e, groups)
  {
    hide AsAsked, GroupOf;
  }

  lemma GroupedOptional(lib: Library, o: Options, d: Draft, force: bool)
    requires d.Shaped()
    ensures Grouped(lib, o, d, force).optional == d.optional
    ensures Grouped(lib, o, d, force).contents.optional == d.contents.optional
    ensures Grouped(lib, o, d, force).rowCounts == d.rowCounts
  {
    hide Stored, GroupOf, EstimatedSize, SectionAt;
  }

  // ----- the directory of a closed tablet

  /** The first stripe of the group of stripe `k`. */
  function GroupBegin(groupIndices: seq<nat>, k: nat): (first: nat)
    requires k < |groupIndices|
    ensures first <= k
  {
    if k == 0 || groupIndices[k - 1] != groupIndices[k] then k else GroupBegin(groupIndices, k - 1)
  }

  /** Groups count from zero, and after every stripe but the last the group ends exactly if it is due. */
  ghost predicate GroupsExact(threshold: nat, stripes: seq<seq<Stream>>, groupIndices: seq<nat>)
  {
    && |groupIndices| == |stripes| && (stripes != [] ==> groupIndices[0] == 0)
    && forall k, width {:trigger IsWidth(stripes[k], width)} :: 0 <= k < |stripes| - 1 && IsWidth(stripes[k], width) ==>
      groupIndices[k + 1] == groupIndices[k] +
        if Due(threshold, GroupBegin(groupIndices, k), k, width) then 1 else 0
  }

  lemma {:induction false} BeginIsFirst(groupIndices: seq<nat>, firsts: seq<nat>, count: nat, k: nat)
    requires Numbered(groupIndices, firsts, count) && k < count
    ensures groupIndices[k] < |firsts| && GroupBegin(groupIndices, k) == firsts[groupIndices[k]]
    decreases k
  {
    GroupOfIndex(groupIndices, firsts, count, k);
    var g := groupIndices[k];
    if k > 0 {
      BeginIsFirst(groupIndices, firsts, count, k - 1);
      GroupOfIndex(groupIndices, firsts, count, k - 1);
    } else {
      GroupZero(firsts, g);
    }
  }

  lemma GroupZero(firsts: seq<nat>, g: nat)
    requires Ascending(firsts) && g < |firsts| && firsts[g] == 0
    ensures g == 0
  {
  }

  lemma SameGroup(groupIndices: seq<nat>, firsts: seq<nat>, count: nat, g: nat, k: nat)
    requires Numbered(groupIndices, firsts, count) && g < |firsts| && k < count && firsts[g] <= k
    requires g + 1 < |firsts| ==> k < firsts[g + 1]
    ensures groupIndices[k] == g
  {
  }

  /** A stripe lies in the group that its index names. */
  lemma {:induction false} GroupOfIndex(groupIndices: seq<nat>, firsts: seq<nat>, count: nat, k: nat)
    requires Numbered(groupIndices, firsts, count) && k < count
    ensures
      var g := groupIndices[k];
      g < |firsts| && firsts[g] <= k && (g + 1 < |firsts| ==> k < firsts[g + 1])
  {
    var g := |firsts| - 1;
    while firsts[g] > k
      invariant 0 <= g < |firsts| && (g + 1 < |firsts| ==> k < firsts[g + 1])
      decreases g
    {
      g := g - 1;
    }
    SameGroup(groupIndices, firsts, count, g, k);
  }

  /** Every section is compressed as asked. */
  ghost predicate AllAsAsked(lib: Library, o: Options, c: Contents, d: Closed)
  {
    && GroupsAsAsked(lib, o, c, d.groups) && OptionalAsAsked(lib, o, c, d.optional)
    && (d.stripesSection.Some? ==> AsAsked(lib, o, d.stripesSection.value, lib.serialize(StripesOf(c, d))))
    && AsAsked(lib, o, d.footerSection, lib.serialize(FooterOf(d)))
  }

  lemma {:induction false} DraftGroupsExact(o: Options, d: Draft)
    requires d.Shaped() && GroupsDue(o, d) && WidthsExact(d.contents)
    requires Numbered(d.groupIndices, d.contents.firsts, |d.contents.index|)
    ensures GroupsExact(o.metadataFlushThreshold, d.contents.stripes, d.groupIndices)
  {
    hide Due, GroupBegin, Numbered;
    var stripes, n := d.contents.stripes, |d.contents.index|;
    if n > 0 { FirstGroup(d.groupIndices, d.contents.firsts, n); }
    forall k, width | 0 <= k < n - 1 && IsWidth(stripes[k], width)
      ensures d.groupIndices[k + 1] == d.groupIndices[k] +
        if Due(o.metadataFlushThreshold, GroupBegin(d.groupIndices, k), k, width) then 1 else 0
    {
      BeginIsFirst(d.groupIndices, d.contents.firsts, n, k);
      OneWidth(stripes[k], width, |d.contents.index[k].offsets|);
      assert GroupAt(d.groupIndices, |d.groups|, k + 1) == d.groupIndices[k + 1];
    }
  }

  lemma FirstGroup(groupIndices: seq<nat>, firsts: seq<nat>, count: nat)
    requires Numbered(groupIndices, firsts, count) && count > 0
    ensures groupIndices[0] == 0
  {
    GroupOfIndex(groupIndices, firsts, count, 0);
    GroupZero(firsts, groupIndices[0]);
  }

  lemma OneWidth(streams: seq<Stream>, a: nat, b: nat)
    requires IsWidth(streams, a) && IsWidth(streams, b)
    ensures a == b
  {
  }

  /** The directory of any run, from its steps. */
  lemma Directory(lib: Library, o: Options, steps: seq<Step>)
    requires lib.Lawful() && o.Lawful()
    ensures
      var t := TabletOf(lib, o, steps);
      && t.closed.rowCounts == NonZero(RowCounts(steps, |steps|)) && t.closed.checksumType == o.checksumType
      && SizesExact(t.contents, t.closed.stripeSizes)
      && GroupsExact(o.metadataFlushThreshold, t.contents.stripes, t.closed.groupIndices)
      && AllAsAsked(lib, o, t.contents, t.closed)
  {
    hide Options.Lawful, Library.Lawful, DraftAfter, NonZero, RowCounts, WidthsExact, SizesExact, GroupsDue;
    hide GroupsExact;
    hide GroupsAsAsked, OptionalAsAsked, Sound, AfterGroup, EstimatedSize, Stored, SectionAt, AsAsked, PostscriptAfter;
    var d := DraftAfter(lib, o, steps, |steps|);
    DraftRowCounts(lib, o, steps, |steps|);
    DraftDirectory(lib, o, steps, |steps|);
    DraftSound(lib, o, steps, |steps|);
    DraftNumbered(lib, d);
    DraftGroupsExact(o, d);
    DraftAsAsked(lib, o, steps, |steps|);
    MoreGroups(lib, o, d, true);
    GroupedOptional(lib, o, d, true);
    GroupedContents(lib, o, d, true);
    ClosedDirectory(lib, o, d);
  }

  lemma DraftNumbered(lib: Library, d: Draft)
    requires Sound(lib, d)
    ensures Numbered(d.groupIndices, d.contents.firsts, |d.contents.index|)
  {
    hide Numbered;
  }

  lemma ClosedDirectory(lib: Library, o: Options, d: Draft)
    requires d.Shaped()
    requires SizesExact(d.contents, d.stripeSizes)
    requires GroupsExact(o.metadataFlushThreshold, d.contents.stripes, d.groupIndices)
    requires GroupsAsAsked(lib, o, Grouped(lib, o, d, true).contents, Grouped(lib, o, d, true).groups)
    requires OptionalAsAsked(lib, o, d.contents, d.optional)
    requires Grouped(lib, o, d, true).contents == d.contents.(firsts := Grouped(lib, o, d, true).contents.firsts)
    ensures
      var t := Finished(lib, o, d);
      && t.closed.rowCounts == d.rowCounts && t.closed.checksumType == o.checksumType
      && SizesExact(t.contents, t.closed.stripeSizes)
      && GroupsExact(o.metadataFlushThreshold, t.contents.stripes, t.closed.groupIndices)
      && AllAsAsked(lib, o, t.contents, t.closed)
  {
    hide GroupsExact, GroupsAsAsked, AsAsked, Stored, SectionAt, EstimatedSize, GroupOf, PostscriptAfter, TotalRows;
    hide Sum;
    var e := Grouped(lib, o, d, true);
    var c := ClosedOf(lib, o, e);
    SectionAsAsked(lib, o, e.file, lib.serialize(StripesOf(e.contents, c)));
    SectionAsAsked(lib, o, WithStripes(lib, o, e), lib.serialize(FooterOf(c)));
  }
}
