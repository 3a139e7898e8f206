/**
  Reading maps that are stored by key.  Every key node is a pair of cursors, one over the in-map flags and
  one over the values; the reader merges the values of a batch of rows node by node.
 */
module FlatMapReader {
  import opened Wrappers
  import opened Sequences
  import opened Scatter
  import opened FlatMaps

  method CountFlags(flags: seq<bool>) returns (count: nat)
    ensures count == CountTrue(flags)
  {
    count := 0;
    for i := 0 to |flags|
      invariant count == Rank(flags, i)
    {
      if flags[i] { count := count + 1; }
    }
  }

  /** `FlatMapKeyNode` */
  class FlatMapKeyNode {
    const field: Field
    var inMapPosition: nat
    var valuePosition: nat
    var inMapData: seq<bool>
    var numValues: nat

    constructor (f: Field)
      requires |f.values| == CountTrue(f.inMap)
      ensures At(0) && field == f
    {
      field, inMapPosition, valuePosition, inMapData, numValues := f, 0, 0, [], 0;
    }

    /** Both cursors stand before map number `maps`. */
    ghost predicate At(maps: nat)
      reads this
    {
      && |field.values| == CountTrue(field.inMap) && inMapPosition == maps <= |field.inMap|
      && valuePosition == Rank(field.inMap, maps)
    }

    /** The flags of the next `n` maps are read, their values not yet. */
    ghost predicate Between(maps: nat, n: nat)
      reads this
    {
      && |field.values| == CountTrue(field.inMap) && inMapPosition == maps + n <= |field.inMap|
      && valuePosition == Rank(field.inMap, maps) && inMapData == field.inMap[maps..maps + n]
      && numValues == CountTrue(inMapData) && valuePosition + numValues == Rank(field.inMap, maps + n)
    }

    method ReadInMapData(n: nat)
      requires At(inMapPosition) && inMapPosition + n <= |field.inMap|
      modifies `inMapPosition, `inMapData, `numValues
      ensures Between(old(inMapPosition), n)
      ensures numValues == 0 ==> At(inMapPosition)
    {
      RankOfSlice(field.inMap, inMapPosition, inMapPosition + n);
      inMapData := field.inMap[inMapPosition..inMapPosition + n];
      inMapPosition := inMapPosition + n;
      numValues := CountFlags(inMapData);
    }

    method LoadValues(ghost maps: nat, ghost n: nat) returns (values: seq<Item>)
      requires Between(maps, n)
      modifies `valuePosition
      ensures At(maps + n) && values == Part(field, maps, n).values
    {
      hide Rank, CountTrue;
      PartFits(field, maps, n);
      values := field.values[valuePosition..valuePosition + numValues];
      valuePosition := valuePosition + numValues;
    }

    method Skip(n: nat)
      requires At(inMapPosition) && inMapPosition + n <= |field.inMap|
      modifies this
      ensures At(old(inMapPosition) + n)
    {
      ReadInMapData(n);
      if numValues > 0 { valuePosition := valuePosition + numValues; }
    }

    method Reset()
      requires |field.values| == CountTrue(field.inMap)
      modifies `inMapPosition, `valuePosition
      ensures At(0)
    {
      inMapPosition, valuePosition := 0, 0;
    }
  }

  // ----- the part of a field that a batch needs

  function Part(f: Field, maps: nat, n: nat): Field
    requires |f.values| == CountTrue(f.inMap) && maps + n <= |f.inMap|
  {
    SliceRanks(f.inMap, maps, maps + n);
    Field(f.key, f.inMap[maps..maps + n], f.values[Rank(f.inMap, maps)..Rank(f.inMap, maps + n)])
  }

  lemma PartFits(f: Field, maps: nat, n: nat)
    requires |f.values| == CountTrue(f.inMap) && maps + n <= |f.inMap|
    ensures Rank(f.inMap, maps) <= Rank(f.inMap, maps + n) <= |f.values|
    ensures |Part(f, maps, n).inMap| == n && |Part(f, maps, n).values| == CountTrue(Part(f, maps, n).inMap)
  {
    SliceRanks(f.inMap, maps, maps + n);
  }

  lemma PartAt(f: Field, maps: nat, n: nat, d: nat)
    requires |f.values| == CountTrue(f.inMap) && maps + n <= |f.inMap| && d < n
    ensures Part(f, maps, n).inMap[d] == f.inMap[maps + d]
    ensures f.inMap[maps + d] ==>
      && Rank(Part(f, maps, n).inMap, d) < |Part(f, maps, n).values| && Rank(f.inMap, maps + d) < |f.values|
      && Part(f, maps, n).values[Rank(Part(f, maps, n).inMap, d)] == f.values[Rank(f.inMap, maps + d)]
  {
    hide Rank, CountTrue;
    SliceRanks(f.inMap, maps, maps + n);
    RankInSlice(f.inMap, maps, maps + n, d);
    if f.inMap[maps + d] {
      RankBound(f.inMap, maps + d);
      RankBound(f.inMap[maps..maps + n], d);
    }
  }

  /** The chosen nodes stand for the same maps as the first `j` fields do from map `maps` on. */
  ghost predicate SameSoFar(fields: seq<Field>, total: nat, nodes: seq<Field>, maps: nat, n: nat, j: nat)
    requires FieldsFit(fields, total) && maps + n <= total && j <= |fields|
  {
    FieldsFit(nodes, n) && forall d :: 0 <= d < n ==>
      && MapAt(nodes, d, |nodes|) == MapAt(fields, maps + d, j)
      && FieldCount(nodes, d, |nodes|) == FieldCount(fields, maps + d, j)
  }

  /** A node none of the maps has can be left out. */
  lemma NextNode(fields: seq<Field>, total: nat, nodes: seq<Field>, maps: nat, n: nat, j: nat)
    requires FieldsFit(fields, total) && maps + n <= total && j < |fields|
    requires SameSoFar(fields, total, nodes, maps, n, j)
    ensures SameSoFar(fields, total, nodes + [Part(fields[j], maps, n)], maps, n, j + 1)
    ensures CountTrue(fields[j].inMap[maps..maps + n]) == 0 ==> SameSoFar(fields, total, nodes, maps, n, j + 1)
  {
    hide Rank, CountTrue, Part;
    var part := Part(fields[j], maps, n);
    var more := nodes + [part];
    PartFits(fields[j], maps, n);
    PartParts(fields[j], maps, n);
    assert more[|nodes|] == part;
    forall d | 0 <= d < n
      ensures MapAt(more, d, |more|) == MapAt(fields, maps + d, j + 1)
      ensures CountTrue(fields[j].inMap[maps..maps + n]) == 0 ==>
        MapAt(nodes, d, |nodes|) == MapAt(fields, maps + d, j + 1)
      ensures FieldCount(more, d, |more|) == FieldCount(fields, maps + d, j + 1)
      ensures CountTrue(fields[j].inMap[maps..maps + n]) == 0 ==>
        FieldCount(nodes, d, |nodes|) == FieldCount(fields, maps + d, j + 1)
    {
      PartAt(fields[j], maps, n, d);
      MapAtPrefix(nodes, part, d, |nodes|);
      if fields[j].inMap[maps + d] { RankBound(fields[j].inMap[maps..maps + n], d); }
    }
  }

  lemma {:induction false} MapAtPrefix(nodes: seq<Field>, last: Field, d: nat, j: nat)
    requires j <= |nodes| && d < |last.inMap| && |last.values| == CountTrue(last.inMap)
    requires forall k :: 0 <= k < |nodes| ==> d < |nodes[k].inMap| && |nodes[k].values| == CountTrue(nodes[k].inMap)
    ensures MapAt(nodes + [last], d, j) == MapAt(nodes, d, j)
    ensures FieldCount(nodes + [last], d, j) == FieldCount(nodes, d, j)
  {
    hide Rank, CountTrue;
    if j > 0 { MapAtPrefix(nodes, last, d, j - 1); }
  }

  // ----- the reader

  const SKIP_BATCH_SIZE := 1024

  class MergedFlatMapReader {
    const streams: Streams
    const hasNull: bool
    const keyNodes: seq<FlatMapKeyNode>
    var nullsPosition: nat
    /** How many rows have been read or skipped. */
    ghost var row: nat

    /** Without a nulls stream every row is a map. */
    constructor (s: Streams, hasNull: bool)
      requires WellFormed(s) && (hasNull || s.nonNulls == Repeat(true, |s.nonNulls|))
      ensures Valid() && streams == s && row == 0 && fresh(Repr())
    {
      hide Rank, CountTrue, DistinctKeys;
      streams, this.hasNull, nullsPosition, row := s, hasNull, 0, 0;
      var nodes: seq<FlatMapKeyNode> := [];
      RankAll(s.nonNulls);
      for j := 0 to |s.fields|
        invariant |nodes| == j && fresh(nodes)
        invariant forall i :: 0 <= i < j ==> nodes[i].field == s.fields[i] && nodes[i].At(0)
        invariant forall i, k :: 0 <= i < k < j ==> nodes[i] != nodes[k]
      {
        var node := new FlatMapKeyNode(s.fields[j]);
        nodes := nodes + [node];
      }
      keyNodes := nodes;
    }

    ghost function Repr(): set<object>
    {
      {this} + set j | 0 <= j < |keyNodes| :: keyNodes[j]
    }

    ghost predicate Built()
    {
      && WellFormed(streams) && (hasNull || streams.nonNulls == Repeat(true, |streams.nonNulls|))
      && |keyNodes| == |streams.fields| && (forall j :: 0 <= j < |keyNodes| ==> keyNodes[j].field == streams.fields[j])
      && forall i, j :: 0 <= i < j < |keyNodes| ==> keyNodes[i] != keyNodes[j]
    }

    ghost predicate Valid()
      reads Repr()
    {
      && Built() && row <= |streams.nonNulls| && (hasNull ==> nullsPosition == row)
      && forall j :: 0 <= j < |keyNodes| ==> keyNodes[j].At(Rank(streams.nonNulls, row))
    }

    /** `loadNulls` */
    method LoadNulls(rowCount: nat) returns (nonNulls: seq<bool>, nonNullCount: nat)
      requires Built() && row + rowCount <= |streams.nonNulls| && (hasNull ==> nullsPosition == row)
      modifies `nullsPosition, `row
      ensures row == old(row) + rowCount && (hasNull ==> nullsPosition == row)
      ensures nonNulls == streams.nonNulls[old(row)..row] && nonNullCount == CountTrue(nonNulls)
      ensures Rank(streams.nonNulls, row) ==
        Rank(streams.nonNulls, old(row)) + nonNullCount <= CountTrue(streams.nonNulls)
    {
      hide Rank, CountTrue, WellFormed;
      SliceRanks(streams.nonNulls, row, row + rowCount);
      if hasNull {
        nonNulls := streams.nonNulls[nullsPosition..nullsPosition + rowCount];
        nonNullCount := CountFlags(nonNulls);
        nullsPosition := nullsPosition + rowCount;
      } else {
        nonNulls := Repeat(true, rowCount);
        nonNullCount := rowCount;
        assert nonNulls == streams.nonNulls[row..row + rowCount];
        CountRepeat(rowCount);
      }
      row := row + rowCount;
    }

    /** The nodes that some map of the batch has, with their flags and values. */
    method ChooseNodes(ghost maps: nat, n: nat) returns (nodes: seq<Field>)
      requires Built() && maps + n <= CountTrue(streams.nonNulls)
      requires forall j :: 0 <= j < |keyNodes| ==> keyNodes[j].At(maps)
      modifies Repr() - {this}
      ensures forall j :: 0 <= j < |keyNodes| ==> keyNodes[j].At(maps + n)
      ensures SameSoFar(streams.fields, CountTrue(streams.nonNulls), nodes, maps, n, |streams.fields|)
    {
      hide Rank, CountTrue, MapAt, DistinctKeys, SameSoFar, Part;
      nodes := [];
      NoNodes(streams.fields, CountTrue(streams.nonNulls), maps, n);
      for j := 0 to |keyNodes|
        invariant forall i :: 0 <= i < |keyNodes| ==> keyNodes[i].At(if i < j then maps + n else maps)
        invariant SameSoFar(streams.fields, CountTrue(streams.nonNulls), nodes, maps, n, j)
      {
        var node := keyNodes[j];
        assert node.At(maps) && node in Repr() - {this};
        NextNode(streams.fields, CountTrue(streams.nonNulls), nodes, maps, n, j);
        PartParts(node.field, maps, n);
        node.ReadInMapData(n);
        if node.numValues > 0 {
          var values := node.LoadValues(maps, n);
          nodes := nodes + [Field(node.field.key, node.inMapData, values)];
        }
      }
    }

    /** The next `rowCount` rows. */
    method Next(rowCount: nat) returns (output: MapVector)
      requires Valid() && row + rowCount <= |streams.nonNulls|
      modifies Repr()
      ensures Valid() && row == old(row) + rowCount
      ensures output.Valid() && output.Rows() == Rows(streams)[old(row)..row]
      ensures output.LaidOut()
      ensures forall i :: 0 <= i < rowCount ==> output.lengths[i] == SizeOf(output.Rows()[i])
    {
      hide Rank, CountTrue, MapAt, DistinctKeys, Part, EntryMap, SameSoFar, FieldsFit, Rows, MapVector.Rows,
        MapVector.Valid, MapVector.LaidOut, FieldCount;
      ghost var from, maps := row, Rank(streams.nonNulls, row);
      var nonNulls, nonNullCount := LoadNulls(rowCount);
      var nodes := ChooseNodes(maps, nonNullCount);
      NodesFit(streams.fields, CountTrue(streams.nonNulls), nodes, maps, nonNullCount);
      output := MergeNodes(nonNulls, nodes);
      RowsMerged(streams, from, row, nodes, output);
      LengthsMerged(streams, from, row, nodes, output.lengths);
    }

    method Skip(count: nat)
      requires Valid() && row + count <= |streams.nonNulls|
      modifies Repr()
      ensures Valid() && row == old(row) + count
    {
      hide Rank, CountTrue, WellFormed;
      ghost var maps := Rank(streams.nonNulls, row);
      var nonNullCount := 0;
      if hasNull {
        var left := count;
        while left > 0
          invariant 0 <= left && row + left == old(row) + count && nullsPosition == row
          invariant Rank(streams.nonNulls, row) == maps + nonNullCount
          invariant forall j :: 0 <= j < |keyNodes| ==> keyNodes[j].At(maps)
        {
          var readSize := if left < SKIP_BATCH_SIZE then left else SKIP_BATCH_SIZE;
          var _, nonNullInBatch := LoadNulls(readSize);
          nonNullCount := nonNullCount + nonNullInBatch;
          left := left - readSize;
        }
      } else {
        var _, n := LoadNulls(count);
        nonNullCount := n;
      }
      RankMono(streams.nonNulls, row, |streams.nonNulls|);
      RankAll(streams.nonNulls);
      if nonNullCount > 0 { SkipNodes(maps, nonNullCount); }
    }

    method SkipNodes(ghost maps: nat, n: nat)
      requires Built() && maps + n <= CountTrue(streams.nonNulls)
      requires forall j :: 0 <= j < |keyNodes| ==> keyNodes[j].At(maps)
      modifies Repr() - {this}
      ensures forall j :: 0 <= j < |keyNodes| ==> keyNodes[j].At(maps + n)
    {
      hide Rank, CountTrue, DistinctKeys;
      for j := 0 to |keyNodes|
        invariant forall i :: 0 <= i < |keyNodes| ==> keyNodes[i].At(if i < j then maps + n else maps)
      {
        var node := keyNodes[j];
        assert node.At(maps) && node in Repr() - {this};
        node.Skip(n);
      }
    }

    method Reset()
      requires Valid()
      modifies Repr()
      ensures Valid() && row == 0
    {
      hide Rank, CountTrue, DistinctKeys;
      RankAll(streams.nonNulls);
      nullsPosition, row := 0, 0;
      for j := 0 to |keyNodes|
        invariant forall i :: 0 <= i < j ==> keyNodes[i].At(0)
        invariant row == 0 && nullsPosition == 0
      {
        var node := keyNodes[j];
        assert node in Repr();
        node.Reset();
      }
    }
  }

  /** The map of a row, from the chosen nodes and from the streams. */
  lemma MapMerged(s: Streams, from: nat, to: nat, nodes: seq<Field>, i: nat)
    requires WellFormed(s) && from <= to <= |s.nonNulls| && i < to - from && s.nonNulls[from + i]
    requires Rank(s.nonNulls, from) + CountTrue(s.nonNulls[from..to]) <= CountTrue(s.nonNulls)
    requires SameSoFar(
      s.fields, CountTrue(s.nonNulls), nodes, Rank(s.nonNulls, from), CountTrue(s.nonNulls[from..to]), |s.fields|)
    ensures Rank(s.nonNulls[from..to], i) < CountTrue(s.nonNulls[from..to])
    ensures Rank(s.nonNulls, from + i) < CountTrue(s.nonNulls) && FieldsFit(nodes, CountTrue(s.nonNulls[from..to]))
    ensures MapAt(nodes, Rank(s.nonNulls[from..to], i), |nodes|) ==
      MapAt(s.fields, Rank(s.nonNulls, from + i), |s.fields|)
    ensures FieldCount(nodes, Rank(s.nonNulls[from..to], i), |nodes|) ==
      FieldCount(s.fields, Rank(s.nonNulls, from + i), |s.fields|)
  {
    hide Rank, CountTrue, MapAt, DistinctKeys, FieldCount;
    RankInSlice(s.nonNulls, from, to, i);
    RankBound(s.nonNulls, from + i);
    RankBound(s.nonNulls[from..to], i);
  }

  lemma RowsMerged(s: Streams, from: nat, to: nat, nodes: seq<Field>, output: MapVector)
    requires WellFormed(s) && output.Valid() && from <= to <= |s.nonNulls| && output.nonNulls == s.nonNulls[from..to]
    requires Rank(s.nonNulls, from) + CountTrue(s.nonNulls[from..to]) <= CountTrue(s.nonNulls)
    requires SameSoFar(
      s.fields, CountTrue(s.nonNulls), nodes, Rank(s.nonNulls, from), CountTrue(s.nonNulls[from..to]), |s.fields|)
    requires forall i :: 0 <= i < to - from && output.nonNulls[i] ==>
      Rank(output.nonNulls, i) < CountTrue(output.nonNulls) && FieldsFit(nodes, CountTrue(output.nonNulls)) &&
      output.Rows()[i] == Some(MapAt(nodes, Rank(output.nonNulls, i), |nodes|))
    ensures output.Rows() == Rows(s)[from..to]
  {
    hide Rank, CountTrue, MapAt, DistinctKeys, EntryMap, Rows, SameSoFar, FieldsFit, WellFormed;
    var rows, all := output.Rows(), Rows(s);
    forall i | 0 <= i < to - from ensures rows[i] == all[from + i] {
      RowOf(s, from + i);
      if s.nonNulls[from + i] { MapMerged(s, from, to, nodes, i); }
    }
  }

  function SizeOf(row: Option<map<Key, Item>>): nat
  {
    match row
    case None => 0
    case Some(m) => |m|
  }

  /** The lengths are the sizes of the maps. */
  lemma {:induction false} LengthsMerged(s: Streams, from: nat, to: nat, nodes: seq<Field>, lengths: seq<nat>)
    requires WellFormed(s) && from <= to <= |s.nonNulls| && |lengths| == to - from
    requires Rank(s.nonNulls, from) + CountTrue(s.nonNulls[from..to]) <= CountTrue(s.nonNulls)
    requires SameSoFar(
      s.fields, CountTrue(s.nonNulls), nodes, Rank(s.nonNulls, from), CountTrue(s.nonNulls[from..to]), |s.fields|)
    requires FieldsFit(nodes, CountTrue(s.nonNulls[from..to]))
    requires forall i :: 0 <= i < to - from ==>
      var part := s.nonNulls[from..to];
      && (part[i] ==> Rank(part, i) < CountTrue(part))
      && lengths[i] == if part[i] then FieldCount(nodes, Rank(part, i), |nodes|) else 0
    ensures forall i :: 0 <= i < to - from ==> lengths[i] == SizeOf(Rows(s)[from..to][i])
  {
    hide Rank, CountTrue, MapAt, FieldCount, Rows, DistinctKeys;
    forall i | 0 <= i < to - from ensures lengths[i] == SizeOf(Rows(s)[from..to][i]) {
      RowOf(s, from + i);
      if s.nonNulls[from + i] {
        MapMerged(s, from, to, nodes, i);
        MapSize(s.fields, Rank(s.nonNulls, from + i), |s.fields|);
      }
    }
  }

  lemma NoNodes(fields: seq<Field>, total: nat, maps: nat, n: nat)
    requires FieldsFit(fields, total) && maps + n <= total
    ensures SameSoFar(fields, total, [], maps, n, 0)
  {
  }

  lemma NodesFit(fields: seq<Field>, total: nat, nodes: seq<Field>, maps: nat, n: nat)
    requires FieldsFit(fields, total) && maps + n <= total && SameSoFar(fields, total, nodes, maps, n, |fields|)
    ensures FieldsFit(nodes, n)
  {
  }

  lemma PartParts(f: Field, maps: nat, n: nat)
    requires |f.values| == CountTrue(f.inMap) && maps + n <= |f.inMap|
    ensures Part(f, maps, n).key == f.key && Part(f, maps, n).inMap == f.inMap[maps..maps + n]
  {
  }
}
