/**
  Writing maps by key.  Every key that occurs gets a field; a batch first notes for each field which maps
  have the key and where their values are, then appends flags and values to the field's buffers.  A key that
  turns up late gets flags for the maps already written.  Between batches any of the buffers can be handed
  over as chunks, which leaves them empty.
 */
module FlatMapWriter {
  import opened Wrappers
  import opened Sequences
  import opened Vectors
  import opened FlatMaps
  import opened FlatMapTranspose
  import opened FlatMapReader

  // ----- batches

  /** A batch of rows: each is null or one of the base maps, which are windows over keys and values. */
  datatype MapBatch = MapBatch(
    indices: seq<Option<nat>>, offsets: seq<nat>, sizes: seq<nat>, keys: seq<Key>, values: seq<Item>)
  {
    predicate Valid()
    {
      && |offsets| == |sizes| && |keys| == |values|
      && (forall i :: 0 <= i < |sizes| ==> offsets[i] + sizes[i] <= |keys|)
      && forall r :: 0 <= r < |indices| && indices[r].Some? ==> indices[r].value < |sizes|
    }

    function EntriesOf(index: nat): (es: Entries)
      requires Valid() && index < |sizes|
      ensures |es| == sizes[index]
    {
      seq(sizes[index], e requires 0 <= e < sizes[index] => (keys[offsets[index] + e], values[offsets[index] + e]))
    }

    function Rows(): (rows: seq<EntryRow>)
      requires Valid()
      ensures |rows| == |indices|
    {
      seq(|indices|, r requires 0 <= r < |indices| =>
        if indices[r].Some? then Some(EntriesOf(indices[r].value)) else None)
    }
  }

  // ----- one field while a batch is written

  /**
    `FlatMapValueFieldWriter`: flags and values handed over, the buffers with those still here, and what the
    current batch has noted for them.
   */
  datatype ValueField = ValueField(
    sentFlags: seq<bool>, inMap: seq<bool>, pending: seq<bool>, ranges: seq<nat>,
    sentValues: seq<Item>, values: seq<Item>)
  {
    function AllFlags(): seq<bool>
    {
      sentFlags + inMap
    }

    function AllValues(): seq<Item>
    {
      sentValues + values
    }

    /** The batch has brought the maps `done` and, of the next one, the entries `part`. */
    ghost predicate Holds(
        key: Key, before: seq<Entries>, done: seq<Entries>, part: Entries, size: nat, items: seq<Item>)
    {
      && AllFlags() == ListFlags(key, before) && AllValues() == ListColumn(key, before, |before|)
      && Noted(key, done, part, size) && Gather(items, ranges) == ListColumn(key, done, |done|) + ValuesOf(key, part)
    }

    ghost predicate Noted(key: Key, done: seq<Entries>, part: Entries, size: nat)
    {
      && |pending| == size
      && forall d :: 0 <= d < size ==>
        pending[d] == HasKey(key, if d < |done| then done[d] else if d == |done| then part else [])
    }
  }

  /** A new field: flags for the maps so far and room for those of the batch. */
  function NewField(maps: nat, size: nat): ValueField
  {
    ValueField([], Repeat(false, maps), Repeat(false, size), [], [], [])
  }

  lemma Appended(
      f: ValueField, key: Key, before: seq<Entries>, done: seq<Entries>, size: nat, items: seq<Item>)
    requires f.Holds(key, before, done, [], size, items) && |done| <= size
    ensures f.AllFlags() + f.pending[..|done|] == ListFlags(key, before + done)
    ensures f.AllValues() + Gather(items, f.ranges) == ListColumn(key, before + done, |before + done|)
  {
    hide Gather, HasKey;
    ListColumnConcat(key, before, done, |done|);
    assert ListColumn(key, done, |done|) + [] == ListColumn(key, done, |done|);
  }

  /** The map being read is complete. */
  lemma MapDone(
      f: ValueField, key: Key, before: seq<Entries>, done: seq<Entries>, part: Entries, size: nat, items: seq<Item>)
    requires f.Holds(key, before, done, part, size, items)
    ensures f.Holds(key, before, done + [part], [], size, items)
  {
    hide Gather, HasKey, ListFlags;
    ListColumnNext(key, done, part);
    assert ListColumn(key, done + [part], |done| + 1) + [] == ListColumn(key, done + [part], |done| + 1);
  }

  /** One more entry: its own field takes it, the other fields do not change. */
  lemma EntryAdded(
      f: ValueField, key: Key, before: seq<Entries>, done: seq<Entries>, part: Entries, size: nat, items: seq<Item>,
      position: nat, newKey: Key)
    requires f.Holds(key, before, done, part, size, items) && |done| < size && position < |items|
    ensures
      var next := part + [(newKey, items[position])];
      && (key != newKey ==> f.Holds(key, before, done, next, size, items))
      && (key == newKey ==>
        f.(ranges := f.ranges + [position], pending := f.pending[|done| := true]).Holds(key, before, done, next,
          size, items))
  {
    hide ListFlags, ListColumn, HasKey, ValuesOf;
    HasKeyNext(key, part, (newKey, items[position]));
    ValuesOfNext(key, part, (newKey, items[position]));
    assert Gather(items, f.ranges + [position]) == Gather(items, f.ranges) + [items[position]];
    var sofar := ListColumn(key, done, |done|);
    assert sofar + ValuesOf(key, part) + [items[position]] == sofar + (ValuesOf(key, part) + [items[position]]);
    assert ValuesOf(key, part) + [] == ValuesOf(key, part);
  }

  /** A key seen for the first time gets flags for the maps that came before it. */
  lemma Backfilled(key: Key, before: seq<Entries>, done: seq<Entries>, part: Entries, size: nat, items: seq<Item>)
    requires forall d :: 0 <= d < |before| ==> !HasKey(key, before[d])
    requires forall d :: 0 <= d < |done| ==> !HasKey(key, done[d])
    requires !HasKey(key, part)
    ensures NewField(|before|, size).Holds(key, before, done, part, size, items)
  {
    NoColumn(key, before, |before|);
    NoColumn(key, done, |done|);
    NoValues(key, part);
    assert Repeat(false, |before|) == ListFlags(key, before);
    HasKeyNext(key, [], (key, 0));
  }

  lemma {:induction false} NoValues(key: Key, es: Entries)
    requires !HasKey(key, es)
    ensures ValuesOf(key, es) == []
  {
    if es != [] {
      assert es[|es| - 1].0 != key;
      NoValues(key, es[..|es| - 1]);
    }
  }

  lemma {:induction false} NoColumn(key: Key, lists: seq<Entries>, n: nat)
    requires n <= |lists| && forall d :: 0 <= d < |lists| ==> !HasKey(key, lists[d])
    ensures ListColumn(key, lists, n) == []
  {
    if n > 0 {
      NoColumn(key, lists, n - 1);
      NoValues(key, lists[n - 1]);
    }
  }

  // ----- all fields while a batch is written

  ghost predicate AllHold(
      fields: map<Key, ValueField>, before: seq<Entries>, done: seq<Entries>, part: Entries, size: nat,
      items: seq<Item>)
  {
    && ListsIn(fields.Keys, before) && ListsIn(fields.Keys, done) && EntriesIn(fields.Keys, part)
    && forall k :: k in fields ==> fields[k].Holds(k, before, done, part, size, items)
  }

  /** The field of a key; a new one is backfilled. */
  function FieldFor(fields: map<Key, ValueField>, key: Key, maps: nat, size: nat): ValueField
  {
    if key in fields then fields[key] else NewField(maps, size)
  }

  function Added(fields: map<Key, ValueField>, key: Key, position: nat, mapIndex: nat, maps: nat, size: nat):
      map<Key, ValueField>
    requires mapIndex < size && (key in fields ==> |fields[key].pending| == size)
  {
    var f := FieldFor(fields, key, maps, size);
    fields[key := f.(ranges := f.ranges + [position], pending := f.pending[mapIndex := true])]
  }

  lemma NotIn(keys: set<Key>, lists: seq<Entries>, key: Key)
    requires ListsIn(keys, lists) && key !in keys
    ensures forall d :: 0 <= d < |lists| ==> !HasKey(key, lists[d])
  {
    forall d | 0 <= d < |lists| ensures !HasKey(key, lists[d]) {
      assert EntriesIn(keys, lists[d]);
    }
  }

  lemma AddedHolds(
      fields: map<Key, ValueField>, before: seq<Entries>, done: seq<Entries>, part: Entries, size: nat,
      items: seq<Item>, key: Key, position: nat)
    requires AllHold(fields, before, done, part, size, items) && |done| < size && position < |items|
    ensures key in fields ==> |fields[key].pending| == size
    ensures AllHold(Added(fields, key, position, |done|, |before|, size), before, done,
      part + [(key, items[position])], size, items)
  {
    hide HasKey, ValueField.Holds;
    var next := part + [(key, items[position])];
    if key !in fields {
      NotIn(fields.Keys, before, key);
      NotIn(fields.Keys, done, key);
      NotIn(fields.Keys, [part], key);
      assert [part][0] == part;
      Backfilled(key, before, done, part, size, items);
    }
    var f := FieldFor(fields, key, |before|, size);
    HoldsSize(f, key, before, done, part, size, items);
    EntryAdded(f, key, before, done, part, size, items, position, key);
    var added := Added(fields, key, position, |done|, |before|, size);
    forall k | k in added ensures added[k].Holds(k, before, done, next, size, items) {
      if k != key { EntryAdded(fields[k], k, before, done, part, size, items, position, key); }
    }
    assert added.Keys == fields.Keys + {key};
  }

  lemma HoldsSize(
      f: ValueField, key: Key, before: seq<Entries>, done: seq<Entries>, part: Entries, size: nat, items: seq<Item>)
    requires f.Holds(key, before, done, part, size, items)
    ensures |f.pending| == size && |f.AllFlags()| == |before|
    ensures |done| < size ==> f.pending[|done|] == HasKey(key, part)
  {
  }

  lemma AllHoldSize(
      fields: map<Key, ValueField>, before: seq<Entries>, done: seq<Entries>, part: Entries, size: nat,
      items: seq<Item>)
    requires AllHold(fields, before, done, part, size, items)
    ensures forall k :: k in fields ==> |fields[k].pending| == size
  {
    hide HasKey, ValueField.Holds;
    forall k | k in fields ensures |fields[k].pending| == size {
      HoldsSize(fields[k], k, before, done, part, size, items);
    }
  }

  lemma AllMapDone(
      fields: map<Key, ValueField>, before: seq<Entries>, done: seq<Entries>, part: Entries, size: nat,
      items: seq<Item>)
    requires AllHold(fields, before, done, part, size, items)
    ensures AllHold(fields, before, done + [part], [], size, items)
  {
    hide HasKey, ValueField.Holds;
    forall k | k in fields ensures fields[k].Holds(k, before, done + [part], [], size, items) {
      MapDone(fields[k], k, before, done, part, size, items);
    }
  }

  /** What `write` leaves of a field: the flags of the batch's maps and the values noted for them are appended. */
  function Flushed(f: ValueField, mapCount: nat, items: seq<Item>): ValueField
    requires mapCount <= |f.pending|
  {
    f.(inMap := f.inMap + f.pending[..mapCount], ranges := [], values := f.values + Gather(items, f.ranges))
  }

  // ----- which keys are checked for repetition

  /** An entry that is there already is only noticed if the buffer with the key's flags is not empty. */
  predicate Checked(fields: map<Key, ValueField>, maps: nat, key: Key)
  {
    if key in fields then fields[key].inMap != [] else maps > 0
  }

  /** No key that is checked occurs twice. */
  predicate Unnoticed(es: Entries, fields: map<Key, ValueField>, maps: nat)
  {
    forall a, c :: 0 <= a < c < |es| && es[a].0 == es[c].0 ==> !Checked(fields, maps, es[a].0)
  }

  lemma UnnoticedNext(es: Entries, n: nat, fields: map<Key, ValueField>, maps: nat)
    requires n < |es|
    ensures Unnoticed(es[..n + 1], fields, maps) <==>
      Unnoticed(es[..n], fields, maps) && !(HasKey(es[n].0, es[..n]) && Checked(fields, maps, es[n].0))
    ensures Unnoticed(es, fields, maps) ==> Unnoticed(es[..n + 1], fields, maps)
  {
    var p, q := es[..n], es[..n + 1];
    assert (forall a :: 0 <= a < n ==> q[a] == p[a] == es[a]) && q[n] == es[n];
    if HasKey(es[n].0, p) && Checked(fields, maps, es[n].0) {
      var e :| 0 <= e < |p| && p[e].0 == es[n].0;
      assert q[e].0 == q[n].0;
    }
  }

  /** The rows that `ingestMap` takes. */
  predicate Accepted(rows: seq<EntryRow>, fields: map<Key, ValueField>, maps: nat)
  {
    forall r :: 0 <= r < |rows| && rows[r].Some? ==> Unnoticed(rows[r].value, fields, maps)
  }

  lemma AcceptedNext(rows: seq<EntryRow>, n: nat, fields: map<Key, ValueField>, maps: nat)
    requires n < |rows|
    ensures Accepted(rows[..n + 1], fields, maps) <==>
      Accepted(rows[..n], fields, maps) && (rows[n].Some? ==> Unnoticed(rows[n].value, fields, maps))
    ensures Accepted(rows, fields, maps) ==> Accepted(rows[..n + 1], fields, maps)
  {
    hide Unnoticed;
    var p, q := rows[..n], rows[..n + 1];
    assert (forall a :: 0 <= a < n ==> q[a] == p[a] == rows[a]) && q[n] == rows[n];
  }

  /** Rows without repeated keys are always taken. */
  lemma DistinctAccepted(rows: seq<EntryRow>, fields: map<Key, ValueField>, maps: nat)
    requires RowsDistinct(rows)
    ensures Accepted(rows, fields, maps)
  {
    forall r | 0 <= r < |rows| && rows[r].Some? ensures Unnoticed(rows[r].value, fields, maps) {
      assert NoKeyTwice(rows[r].value);
    }
  }

  /** While a batch is noted, flags and values stay as they are, also what has been handed over. */
  predicate Kept(fields: map<Key, ValueField>, first: map<Key, ValueField>, maps: nat)
  {
    && first.Keys <= fields.Keys
    && forall k :: k in fields ==> SameBuffers(fields[k], FieldFor(first, k, maps, 0))
  }

  predicate SameBuffers(f: ValueField, g: ValueField)
  {
    f.sentFlags == g.sentFlags && f.inMap == g.inMap && f.sentValues == g.sentValues && f.values == g.values
  }

  lemma KeptChecks(fields: map<Key, ValueField>, first: map<Key, ValueField>, maps: nat, key: Key)
    requires Kept(fields, first, maps)
    ensures Checked(fields, maps, key) == Checked(first, maps, key)
  {
  }

  lemma KeptAdded(
      fields: map<Key, ValueField>, first: map<Key, ValueField>, key: Key, position: nat, mapIndex: nat, maps: nat,
      size: nat)
    requires Kept(fields, first, maps) && mapIndex < size && (key in fields ==> |fields[key].pending| == size)
    ensures Kept(Added(fields, key, position, mapIndex, maps, size), first, maps)
  {
  }

  // ----- a batch from beginning to end

  /** `prepare` */
  function Ready(f: ValueField, size: nat): ValueField
  {
    f.(pending := Repeat(false, size))
  }

  lemma FieldReady(f: ValueField, key: Key, before: seq<Entries>, size: nat, items: seq<Item>)
    requires f.AllFlags() == ListFlags(key, before) && f.AllValues() == ListColumn(key, before, |before|)
    requires f.ranges == []
    ensures Ready(f, size).Holds(key, before, [], [], size, items) && SameBuffers(Ready(f, size), f)
  {
    hide ListFlags, ListColumn, HasKey;
    HasKeyNext(key, [], (key, 0));
    NothingNoted(key, items);
  }

  lemma Prepared(
      fields: map<Key, ValueField>, first: map<Key, ValueField>, before: seq<Entries>, size: nat, items: seq<Item>)
    requires ListsIn(fields.Keys, before)
    requires fields == map k | k in first :: Ready(first[k], size)
    requires forall k :: k in first ==>
      && first[k].AllFlags() == ListFlags(k, before) && first[k].AllValues() == ListColumn(k, before, |before|)
      && first[k].ranges == []
    ensures AllHold(fields, before, [], [], size, items) && Kept(fields, first, |before|)
  {
    hide ListFlags, ListColumn, HasKey, Ready, SameBuffers, ValueField.Holds, ValueField.AllFlags, ValueField.AllValues;
    assert fields.Keys == first.Keys;
    forall k | k in fields
      ensures fields[k].Holds(k, before, [], [], size, items) && SameBuffers(fields[k], first[k])
    {
      FieldReady(first[k], k, before, size, items);
    }
  }

  lemma NothingNoted(key: Key, items: seq<Item>)
    ensures Gather(items, []) == ListColumn(key, [], 0) + ValuesOf(key, []) == []
  {
  }

  /** What a field is after the batch. */
  function AfterBatch(f: ValueField, mapCount: nat, items: seq<Item>): ValueField
    requires mapCount <= |f.pending|
  {
    if mapCount > 0 then Flushed(f, mapCount, items) else f
  }

  lemma FieldDone(
      f: ValueField, key: Key, before: seq<Entries>, done: seq<Entries>, size: nat, items: seq<Item>)
    requires f.Holds(key, before, done, [], size, items) && |done| <= size
    ensures |f.pending| == size
    ensures
      var g := AfterBatch(f, |done|, items);
      && g.AllFlags() == ListFlags(key, before + done)
      && g.AllValues() == ListColumn(key, before + done, |before + done|) && g.ranges == []
      && g.sentFlags == f.sentFlags && g.sentValues == f.sentValues
  {
    hide ListFlags, ListColumn, HasKey, Gather, Flushed, ValueField.AllFlags, ValueField.AllValues, ValueField.Holds;
    Appended(f, key, before, done, size, items);
    HoldsSize(f, key, before, done, [], size, items);
    FlushedParts(f, |done|, items);
    if |done| == 0 { NothingDone(f, key, before, size, items); }
  }

  lemma FlushedParts(f: ValueField, mapCount: nat, items: seq<Item>)
    requires mapCount <= |f.pending|
    ensures
      var g := Flushed(f, mapCount, items);
      && g.AllFlags() == f.AllFlags() + f.pending[..mapCount]
      && g.AllValues() == f.AllValues() + Gather(items, f.ranges)
      && g.ranges == [] && g.sentFlags == f.sentFlags && g.sentValues == f.sentValues
  {
    hide Gather;
  }

  lemma NothingDone(f: ValueField, key: Key, before: seq<Entries>, size: nat, items: seq<Item>)
    requires f.Holds(key, before, [], [], size, items)
    ensures f.ranges == [] && before + [] == before
    ensures f.AllFlags() == ListFlags(key, before) && f.AllValues() == ListColumn(key, before, |before|)
  {
    NothingNoted(key, items);
    assert |f.ranges| == |Gather(items, f.ranges)|;
  }

  /** The streams now hold the batch's maps as well. */
  lemma BatchDone(
      fields: map<Key, ValueField>, first: map<Key, ValueField>, before: seq<Entries>, done: seq<Entries>, size: nat,
      items: seq<Item>, after: map<Key, ValueField>)
    requires AllHold(fields, before, done, [], size, items) && |done| <= size && Kept(fields, first, |before|)
    requires forall k :: k in fields ==> |fields[k].pending| == size
    requires after == map k | k in fields :: AfterBatch(fields[k], |done|, items)
    ensures ListsIn(after.Keys, before + done)
    ensures forall k :: k in after ==>
      && after[k].AllFlags() == ListFlags(k, before + done)
      && after[k].AllValues() == ListColumn(k, before + done, |before + done|) && after[k].ranges == []
    ensures KeptSent(after, first)
  {
    hide ListFlags, ListColumn, HasKey, AfterBatch, ValueField.AllFlags, ValueField.AllValues, ValueField.Holds;
    assert after.Keys == fields.Keys;
    forall k | k in after
      ensures
        && after[k].AllFlags() == ListFlags(k, before + done)
        && after[k].AllValues() == ListColumn(k, before + done, |before + done|) && after[k].ranges == []
      ensures after[k].sentFlags == fields[k].sentFlags && after[k].sentValues == fields[k].sentValues
    {
      FieldDone(fields[k], k, before, done, size, items);
    }
  }

  /** What has been handed over does not change; a new field has handed over nothing. */
  predicate KeptSent(after: map<Key, ValueField>, first: map<Key, ValueField>)
  {
    forall k :: k in after ==>
      && after[k].sentFlags == (if k in first then first[k].sentFlags else [])
      && after[k].sentValues == (if k in first then first[k].sentValues else [])
  }

  /** A field whose buffers have been handed over. */
  function HandedOver(f: ValueField, flags: bool, values: bool): ValueField
  {
    var g := if flags then f.(sentFlags := f.sentFlags + f.inMap, inMap := []) else f;
    if values then g.(sentValues := g.sentValues + g.values, values := []) else g
  }

  lemma HandedOverSame(f: ValueField, flags: bool, values: bool)
    ensures HandedOver(f, flags, values).AllFlags() == f.AllFlags()
    ensures HandedOver(f, flags, values).AllValues() == f.AllValues()
  {
  }

  // ----- the writer

  /** The streams of the fields, in the order of the keys: what was handed over and what is still here. */
  function StreamsOf(keys: seq<Key>, fields: map<Key, ValueField>): (s: seq<Field>)
    requires forall j :: 0 <= j < |keys| ==> keys[j] in fields
    ensures |s| == |keys|
  {
    seq(|keys|, j requires 0 <= j < |keys| => Field(keys[j], fields[keys[j]].AllFlags(), fields[keys[j]].AllValues()))
  }

  lemma StreamsTransposed(keys: seq<Key>, fields: map<Key, ValueField>, lists: seq<Entries>)
    requires forall j :: 0 <= j < |keys| ==> keys[j] in fields
    requires forall k :: k in fields ==>
      fields[k].AllFlags() == ListFlags(k, lists) && fields[k].AllValues() == ListColumn(k, lists, |lists|)
    ensures StreamsOf(keys, fields) == ListTransposed(keys, lists)
  {
    hide ListColumn, ListFlags;
  }

  class FlatMapFieldWriter {
    ghost var written: seq<EntryRow>
    ghost var lists: seq<Entries>
    var sentNonNulls: seq<bool>
    var nonNulls: seq<bool>
    var nonNullCount: nat
    /** The keys of the current fields, in the order in which they were added. */
    var keys: seq<Key>
    var fields: map<Key, ValueField>

    constructor ()
      ensures Valid() && written == [] && nonNullCount == 0 && fields == map[]
    {
      written, lists, sentNonNulls, nonNulls, nonNullCount, keys, fields := [], [], [], [], 0, [], map[];
    }

    ghost predicate Indexed()
      reads `keys, `fields
    {
      AllDiffer(keys) && fields.Keys == (set k | k in keys) && forall j :: 0 <= j < |keys| ==> keys[j] in fields
    }

    ghost predicate Valid()
      reads this
    {
      && Indexed() && |lists| == nonNullCount == CountTrue(sentNonNulls + nonNulls)
      && written == RowsOf(sentNonNulls + nonNulls, lists) && ListsIn(fields.Keys, lists)
      && forall k :: k in fields ==>
        && fields[k].AllFlags() == ListFlags(k, lists) && fields[k].AllValues() == ListColumn(k, lists, |lists|)
        && fields[k].ranges == []
    }

    function Stored(): (s: Streams)
      requires Indexed()
      reads this
    {
      Streams(sentNonNulls + nonNulls, StreamsOf(keys, fields))
    }

    /** What is stored are the rows written, unless a key is repeated: then the streams do not fit each other. */
    lemma StoredRows()
      requires Valid()
      ensures Indexed() && (WellFormed(Stored()) <==> RowsDistinct(written))
      ensures WellFormed(Stored()) ==> Rows(Stored()) == MapRows(written)
    {
      hide ListColumn, ListFlags, Rank, CountTrue, RowsOf, ListTransposed, StreamsOf, WellFormed, RowsDistinct, MapRows;
      StoredRowsExact(sentNonNulls + nonNulls, keys, lists);
      StreamsTransposed(keys, fields, lists);
    }

    /** `prepare` on every current field. */
    method PrepareFields(size: nat)
      requires Indexed()
      modifies `fields
      ensures fields == map k | k in old(fields) :: Ready(old(fields)[k], size)
    {
      hide Ready;
      for j := 0 to |keys|
        invariant fields.Keys == old(fields).Keys
        invariant forall i :: 0 <= i < |keys| ==>
          fields[keys[i]] == if i < j then Ready(old(fields)[keys[i]], size) else old(fields)[keys[i]]
      {
        fields := fields[keys[j] := Ready(fields[keys[j]], size)];
      }
    }

    /** `write` on every current field. */
    method WriteFields(items: seq<Item>, mapCount: nat)
      requires Indexed() && forall k :: k in fields ==> mapCount <= |fields[k].pending|
      modifies `fields
      ensures fields == map k | k in old(fields) :: Flushed(old(fields)[k], mapCount, items)
    {
      hide Gather;
      for j := 0 to |keys|
        invariant fields.Keys == old(fields).Keys
        invariant forall i :: 0 <= i < |keys| ==>
          fields[keys[i]] == if i < j then Flushed(old(fields)[keys[i]], mapCount, items) else old(fields)[keys[i]]
      {
        var f := fields[keys[j]];
        var values := f.values;
        if |f.ranges| > 0 { values := values + Gather(items, f.ranges); }
        fields := fields[keys[j] := f.(inMap := f.inMap + f.pending[..mapCount], ranges := [], values := values)];
      }
    }

    /** `getValueFieldWriter` and `add`.  An entry that is there already is only noticed if the buffer has flags. */
    method AddEntry(key: Key, position: nat, mapIndex: nat, size: nat) returns (ok: bool)
      requires Indexed() && mapIndex < size && forall k :: k in fields ==> |fields[k].pending| == size
      modifies `keys, `fields
      ensures ok <==> !(key in old(fields) && old(fields)[key].inMap != [] && old(fields)[key].pending[mapIndex])
      ensures ok ==> Indexed() && fields == Added(old(fields), key, position, mapIndex, nonNullCount, size)
    {
      if key !in fields {
        keys := keys + [key];
        fields := fields[key := NewField(nonNullCount, size)];
      }
      var f := fields[key];
      if f.inMap != [] && f.pending[mapIndex] { return false; }
      fields := fields[key := f.(ranges := f.ranges + [position], pending := f.pending[mapIndex := true])];
      ok := true;
    }

    /** `processMap` */
    method ProcessMap(b: MapBatch, index: nat, mapIndex: nat,
        ghost first: map<Key, ValueField>, ghost before: seq<Entries>, ghost done: seq<Entries>)
      returns (ok: bool)
      requires Indexed() && b.Valid() && index < |b.sizes| && mapIndex == |done| < |b.indices|
      requires |before| == nonNullCount && Kept(fields, first, nonNullCount)
      requires AllHold(fields, before, done, [], |b.indices|, b.values)
      modifies `keys, `fields
      ensures ok <==> Unnoticed(b.EntriesOf(index), first, nonNullCount)
      ensures ok ==> Indexed() && Kept(fields, first, nonNullCount)
      ensures ok ==> AllHold(fields, before, done, b.EntriesOf(index), |b.indices|, b.values)
    {
      hide AllHold, Added, Kept, Unnoticed, Checked, HasKey, FlatMapFieldWriter.Indexed;
      var begin := b.offsets[index];
      ghost var all := b.EntriesOf(index);
      assert all[..0] == [];
      NothingUnnoticed(first, nonNullCount);
      for e := 0 to b.sizes[index]
        invariant Indexed() && Kept(fields, first, nonNullCount) && Unnoticed(all[..e], first, nonNullCount)
        invariant AllHold(fields, before, done, all[..e], |b.indices|, b.values)
      {
        var key := b.keys[begin + e];
        assert all[e] == (key, b.values[begin + e]) && all[..e + 1] == all[..e] + [all[e]];
        AllHoldSize(fields, before, done, all[..e], |b.indices|, b.values);
        UnnoticedNext(all, e, first, nonNullCount);
        EntryNoticed(fields, first, before, done, all[..e], |b.indices|, b.values, key);
        AddedHolds(fields, before, done, all[..e], |b.indices|, b.values, key, begin + e);
        KeptAdded(fields, first, key, begin + e, mapIndex, nonNullCount, |b.indices|);
        ok := AddEntry(key, begin + e, mapIndex, |b.indices|);
        if !ok { return; }
      }
      assert all[..|all|] == all;
      ok := true;
    }

    /** Notes for every field which of the batch's maps have it. */
    method NoteRows(b: MapBatch, ghost first: map<Key, ValueField>, ghost before: seq<Entries>)
      returns (ok: bool, count: nat, ghost done: seq<Entries>)
      requires Indexed() && b.Valid() && |before| == nonNullCount == CountTrue(sentNonNulls + nonNulls)
      requires Kept(fields, first, nonNullCount) && AllHold(fields, before, [], [], |b.indices|, b.values)
      modifies `nonNulls, `keys, `fields
      ensures ok <==> Accepted(b.Rows(), first, nonNullCount)
      ensures ok ==> Indexed() && Kept(fields, first, nonNullCount) && |done| == count <= |b.indices|
      ensures ok ==> AllHold(fields, before, done, [], |b.indices|, b.values)
      ensures ok ==> |before + done| == CountTrue(sentNonNulls + nonNulls)
      ensures ok ==>
        RowsOf(sentNonNulls + nonNulls, before + done) == old(RowsOf(sentNonNulls + nonNulls, before)) + b.Rows()
    {
      hide AllHold, Kept, Accepted, Unnoticed, Rank, CountTrue, RowsOf, FlatMapFieldWriter.Indexed, MapBatch.EntriesOf;
      count, done := 0, [];
      ghost var rows := RowsOf(sentNonNulls + nonNulls, before);
      assert before + done == before && b.Rows()[..0] == [] && rows + [] == rows;
      NothingAccepted(first, nonNullCount);
      for r := 0 to |b.indices|
        invariant Indexed() && Kept(fields, first, nonNullCount) && |done| == count <= r
        invariant Accepted(b.Rows()[..r], first, nonNullCount)
        invariant AllHold(fields, before, done, [], |b.indices|, b.values)
        invariant |before + done| == CountTrue(sentNonNulls + nonNulls)
        invariant RowsOf(sentNonNulls + nonNulls, before + done) == rows + b.Rows()[..r]
      {
        var row := b.indices[r];
        assert b.Rows()[..r + 1] == b.Rows()[..r] + [b.Rows()[r]];
        AcceptedNext(b.Rows(), r, first, nonNullCount);
        RowsOfNext(sentNonNulls + nonNulls, before + done, b.Rows()[r]);
        assert rows + (b.Rows()[..r] + [b.Rows()[r]]) == rows + b.Rows()[..r] + [b.Rows()[r]];
        assert sentNonNulls + nonNulls + [row.Some?] == sentNonNulls + (nonNulls + [row.Some?]);
        if row.Some? {
          ok := ProcessMap(b, row.value, count, first, before, done);
          if !ok { return; }
          AllMapDone(fields, before, done, b.EntriesOf(row.value), |b.indices|, b.values);
          assert (before + done) + [b.EntriesOf(row.value)] == before + (done + [b.EntriesOf(row.value)]);
          done := done + [b.EntriesOf(row.value)];
          count := count + 1;
        }
        nonNulls := nonNulls + [row.Some?];
      }
      ok := true;
      assert b.Rows()[..|b.indices|] == b.Rows();
    }

    /** `ingestMap`.  It fails exactly for a map that repeats a key whose repetition is noticed. */
    method Write(b: MapBatch) returns (ok: bool)
      requires Valid() && b.Valid()
      modifies this
      ensures ok <==> Accepted(b.Rows(), old(fields), old(nonNullCount))
      ensures ok ==> Valid() && written == old(written) + b.Rows() && KeptSent(fields, old(fields))
      ensures RowsDistinct(b.Rows()) ==> ok
    {
      hide AllHold, Kept, KeptSent, Accepted, Rank, CountTrue, ListFlags, ListColumn, RowsOf, AllDiffer, Gather, Ready;
      hide MapBatch.Rows, RowsDistinct, MapBatch.Valid, Flushed, ListsIn;
      if RowsDistinct(b.Rows()) { DistinctAccepted(b.Rows(), fields, nonNullCount); }
      ghost var first := fields;
      PrepareFields(|b.indices|);
      assert fields.Keys == first.Keys;
      Prepared(fields, first, lists, |b.indices|, b.values);
      var count;
      ghost var done;
      ok, count, done := NoteRows(b, first, lists);
      if !ok { return; }
      ghost var noted := fields;
      AllHoldSize(fields, lists, done, [], |b.indices|, b.values);
      if count > 0 { WriteFields(b.values, count); }
      assert fields == map k | k in noted :: AfterBatch(noted[k], count, b.values);
      nonNullCount := nonNullCount + count;
      BatchDone(noted, first, lists, done, |b.indices|, b.values, fields);
      written, lists := written + b.Rows(), lists + done;
    }

    /** A chunk is handed over between batches, of any of the buffers. */
    method FlushChunk(flagKeys: set<Key>, valueKeys: set<Key>, nulls: bool)
      requires Valid()
      modifies `fields, `sentNonNulls, `nonNulls
      ensures Valid()
      ensures fields == map k | k in old(fields) :: HandedOver(old(fields)[k], k in flagKeys, k in valueKeys)
    {
      hide ListFlags, ListColumn, RowsOf, CountTrue, Rank;
      if nulls {
        assert sentNonNulls + nonNulls == sentNonNulls + nonNulls + [];
        sentNonNulls, nonNulls := sentNonNulls + nonNulls, [];
      }
      forall k | k in fields
        ensures HandedOver(fields[k], k in flagKeys, k in valueKeys).AllFlags() == fields[k].AllFlags()
        ensures HandedOver(fields[k], k in flagKeys, k in valueKeys).AllValues() == fields[k].AllValues()
      {
        HandedOverSame(fields[k], k in flagKeys, k in valueKeys);
      }
      ghost var before := fields;
      fields := map k | k in fields :: HandedOver(fields[k], k in flagKeys, k in valueKeys);
      assert fields.Keys == before.Keys;
    }

    /** The end of a stripe: what is left is handed over, and the fields are forgotten. */
    method EndStripe() returns (s: Streams)
      requires Valid()
      modifies this
      ensures old(Indexed()) && s == old(Stored())
      ensures Valid() && written == [] && nonNullCount == 0 && fields == map[]
    {
      s := Stored();
      written, lists, sentNonNulls, nonNulls, nonNullCount, keys, fields := [], [], [], [], 0, [], map[];
    }
  }

  lemma NothingUnnoticed(fields: map<Key, ValueField>, maps: nat)
    ensures Unnoticed([], fields, maps)
  {
  }

  lemma NothingAccepted(fields: map<Key, ValueField>, maps: nat)
    ensures Accepted([], fields, maps)
  {
  }

  /** When an entry is noticed: its key is in the part of the map before it, and checked. */
  lemma EntryNoticed(
      fields: map<Key, ValueField>, first: map<Key, ValueField>, before: seq<Entries>, done: seq<Entries>,
      part: Entries, size: nat, items: seq<Item>, key: Key)
    requires AllHold(fields, before, done, part, size, items) && |done| < size && Kept(fields, first, |before|)
    ensures key in fields ==> |fields[key].pending| == size
    ensures (key in fields && fields[key].inMap != [] && fields[key].pending[|done|]) <==>
      HasKey(key, part) && Checked(first, |before|, key)
  {
    hide ValueField.Holds, HasKey, ListsIn;
    KeptChecks(fields, first, |before|, key);
    if key in fields {
      HoldsSize(fields[key], key, before, done, part, size, items);
    } else {
      NotIn(fields.Keys, [part], key);
      assert [part][0] == part;
    }
  }

  // ----- whole runs

  datatype FlatMapStep = ReadRows(count: nat) | SkipRows(count: nat) | Rewind

  predicate StepsInBounds(total: nat, row: nat, steps: seq<FlatMapStep>)
    decreases |steps|
  {
    row <= total &&
    (steps != [] ==>
      match steps[0]
      case ReadRows(n) => StepsInBounds(total, row + n, steps[1..])
      case SkipRows(n) => StepsInBounds(total, row + n, steps[1..])
      case Rewind => StepsInBounds(total, 0, steps[1..]))
  }

  lemma StartsInBounds(total: nat, row: nat, steps: seq<FlatMapStep>)
    requires StepsInBounds(total, row, steps)
    ensures row <= total
  {
  }

  /** What each read should return: the slice of the rows at which it starts. */
  function Expectation(rows: seq<Option<map<Key, Item>>>, row: nat,
        steps: seq<FlatMapStep>): seq<seq<Option<map<Key, Item>>>>
    requires StepsInBounds(|rows|, row, steps)
    decreases |steps|
  {
    if steps == [] then []
    else match steps[0]
      case ReadRows(n) =>
        StartsInBounds(|rows|, row + n, steps[1..]);
        [rows[row..row + n]] + Expectation(rows, row + n, steps[1..])
      case SkipRows(n) => Expectation(rows, row + n, steps[1..])
      case Rewind => Expectation(rows, 0, steps[1..])
  }

  /** Any run of reads, skips and resets returns the rows. */
  method ReadRun(r: MergedFlatMapReader, steps: seq<FlatMapStep>) returns (outputs: seq<seq<Option<map<Key, Item>>>>)
    requires r.Valid() && StepsInBounds(|r.streams.nonNulls|, r.row, steps)
    modifies r.Repr()
    ensures outputs == Expectation(Rows(r.streams), old(r.row), steps)
  {
    hide Rows, WellFormed, MergedFlatMapReader.Valid, MapVector.Rows, MapVector.Valid;
    assert r.Built() by { ReaderBuilt(r); }
    outputs := [];
    ghost var whole := Expectation(Rows(r.streams), r.row, steps);
    assert steps[0..] == steps && [] + whole == whole;
    for i := 0 to |steps|
      invariant r.Valid() && StepsInBounds(|r.streams.nonNulls|, r.row, steps[i..])
      invariant whole == outputs + Expectation(Rows(r.streams), r.row, steps[i..])
    {
      ghost var rest, before, p := steps[i..], outputs, r.row;
      assert rest[0] == steps[i] && rest[1..] == steps[i + 1..];
      match steps[i] {
        case ReadRows(n) =>
          StartsInBounds(|r.streams.nonNulls|, p + n, rest[1..]);
          var output := r.Next(n);
          outputs := outputs + [output.Rows()];
          assert before + ([output.Rows()] + Expectation(Rows(r.streams), r.row, rest[1..])) ==
            outputs + Expectation(Rows(r.streams), r.row, rest[1..]);
        case SkipRows(n) =>
          StartsInBounds(|r.streams.nonNulls|, p + n, rest[1..]);
          r.Skip(n);
        case Rewind =>
          r.Reset();
      }
    }
    assert steps[|steps|..] == [] && outputs + [] == outputs;
  }

  lemma ReaderBuilt(r: MergedFlatMapReader)
    requires r.Valid()
    ensures r.Built()
  {
  }

  /** What a writer is asked to do for one stripe. */
  datatype WriteStep =
    | WriteBatch(batch: MapBatch)
    | HandOver(flagKeys: set<Key>, valueKeys: set<Key>, nulls: bool)

  predicate Writable(steps: seq<WriteStep>)
  {
    forall i :: 0 <= i < |steps| && steps[i].WriteBatch? ==>
      steps[i].batch.Valid() && RowsDistinct(steps[i].batch.Rows())
  }

  /** The rows of the first `n` steps. */
  function StepRows(steps: seq<WriteStep>, n: nat): seq<EntryRow>
    requires Writable(steps) && n <= |steps|
  {
    if n == 0 then []
    else if steps[n - 1].HandOver? then StepRows(steps, n - 1)
    else StepRows(steps, n - 1) + steps[n - 1].batch.Rows()
  }

  lemma {:induction false} StepRowsDistinct(steps: seq<WriteStep>, n: nat)
    requires Writable(steps) && n <= |steps|
    ensures RowsDistinct(StepRows(steps, n))
  {
    hide NoKeyTwice, MapBatch.Rows;
    if n > 0 { StepRowsDistinct(steps, n - 1); }
  }

  /** One stripe: any batches of maps with distinct keys, and any chunks handed over between them. */
  method WriteStripe(writer: FlatMapFieldWriter, steps: seq<WriteStep>) returns (s: Streams)
    requires writer.Valid() && writer.written == [] && Writable(steps)
    modifies writer
    ensures writer.Valid() && writer.written == []
    ensures WellFormed(s) && Rows(s) == MapRows(StepRows(steps, |steps|))
  {
    hide FlatMapFieldWriter.Valid, MapBatch.Rows, MapBatch.Valid, WellFormed, RowsDistinct, MapRows, Rows, Accepted,
      KeptSent, HandedOver;
    for i := 0 to |steps|
      invariant writer.Valid() && writer.written == StepRows(steps, i)
    {
      match steps[i] {
        case WriteBatch(b) => var ok := writer.Write(b);
        case HandOver(flagKeys, valueKeys, nulls) => writer.FlushChunk(flagKeys, valueKeys, nulls);
      }
    }
    StepRowsDistinct(steps, |steps|);
    writer.StoredRows();
    s := writer.EndStripe();
  }

  /**
    Any stripes, each of any batches with chunks handed over between them, and any run of reads, skips and
    resets on any one of them.
   */
  method WriteAndRead(stripes: seq<seq<WriteStep>>, stripe: nat, steps: seq<FlatMapStep>)
    returns (outputs: seq<seq<Option<map<Key, Item>>>>)
    requires stripe < |stripes| && forall i :: 0 <= i < |stripes| ==> Writable(stripes[i])
    requires StepsInBounds(|StepRows(stripes[stripe], |stripes[stripe]|)|, 0, steps)
    ensures outputs == Expectation(MapRows(StepRows(stripes[stripe], |stripes[stripe]|)), 0, steps)
  {
    hide FlatMapFieldWriter.Valid, MapBatch.Rows, MapBatch.Valid, WellFormed, RowsDistinct, MapRows, Rows, Writable,
      StepRows;
    var writer := new FlatMapFieldWriter();
    var stored: seq<Streams> := [];
    for i := 0 to |stripes|
      invariant writer.Valid() && writer.written == [] && fresh(writer) && |stored| == i
      invariant forall k :: 0 <= k < i ==>
        WellFormed(stored[k]) && Rows(stored[k]) == MapRows(StepRows(stripes[k], |stripes[k]|))
    {
      var s := WriteStripe(writer, stripes[i]);
      stored := stored + [s];
    }
    var hasNull := stored[stripe].nonNulls != Repeat(true, |stored[stripe].nonNulls|);
    var reader := new MergedFlatMapReader(stored[stripe], hasNull);
    outputs := ReadRun(reader, steps);
  }

  // ----- repeated keys that are not noticed

  lemma {:induction false} AllPresent(nonNulls: seq<bool>, k: nat)
    requires k <= |nonNulls| && forall r :: 0 <= r < |nonNulls| ==> nonNulls[r]
    ensures Rank(nonNulls, k) == k
  {
    if k > 0 { AllPresent(nonNulls, k - 1); }
  }

  /** Without nulls the rows are the lists. */
  lemma ListsOfRows(nonNulls: seq<bool>, lists: seq<Entries>, rows: seq<EntryRow>)
    requires |lists| == CountTrue(nonNulls) && RowsOf(nonNulls, lists) == rows
    requires forall r :: 0 <= r < |rows| ==> rows[r].Some?
    ensures |lists| == |rows| && forall r :: 0 <= r < |rows| ==> lists[r] == rows[r].value
  {
    assert forall r :: 0 <= r < |rows| ==> rows[r].Some? == nonNulls[r];
    AllPresent(nonNulls, |nonNulls|);
    forall r | 0 <= r < |rows| ensures lists[r] == rows[r].value { AllPresent(nonNulls, r); }
  }

  /** Once [{7: 1}], and then the map with 7 twice. */
  function Twice(): MapBatch
  {
    MapBatch([Some(0)], [0], [2], [7, 7], [1, 2])
  }

  lemma TwiceRows(fields: map<Key, ValueField>, maps: nat)
    requires !Checked(fields, maps, 7)
    ensures Twice().Valid() && Twice().Rows() == [Some([(7, 1), (7, 2)])] && Accepted(Twice().Rows(), fields, maps)
  {
    assert Twice().EntriesOf(0) == [(7, 1), (7, 2)];
  }

  lemma TwiceColumn()
    ensures ListFlags(7, [[(7, 1), (7, 2)]]) == [true] && ListColumn(7, [[(7, 1), (7, 2)]], 1) == [1, 2]
    ensures ListFlags(7, [[(7, 1)], [(7, 1), (7, 2)]]) == [true, true]
    ensures ListColumn(7, [[(7, 1)], [(7, 1), (7, 2)]], 2) == [1, 1, 2]
  {
    var one: Entries, two: Entries := [(7, 1)], [(7, 1), (7, 2)];
    assert two[..1] == one && one[..0] == [];
    assert ValuesOf(7, one) == [1] && ValuesOf(7, two) == [1, 2];
    assert one[0].0 == 7 && two[0].0 == 7;
    assert ListColumn(7, [two], 1) == ListColumn(7, [two], 0) + [1, 2];
    assert ListColumn(7, [one, two], 1) == ListColumn(7, [one, two], 0) + [1];
  }

  lemma TwiceNotDistinct(rows: seq<EntryRow>)
    requires |rows| > 0 && rows[|rows| - 1] == Some([(7, 1), (7, 2)])
    ensures !RowsDistinct(rows)
  {
    var es := rows[|rows| - 1].value;
    assert es[0].0 == es[1].0;
  }

  /** The field of the key in what is stored. */
  lemma FieldStored(writer: FlatMapFieldWriter, rows: seq<EntryRow>, lists: seq<Entries>)
    requires writer.Valid() && writer.written == rows && |rows| == |lists| > 0
    requires forall r :: 0 <= r < |rows| ==> rows[r] == Some(lists[r])
    requires HasKey(7, lists[0])
    ensures 7 in writer.fields
    ensures writer.Indexed() && Field(7, ListFlags(7, lists), ListColumn(7, lists, |lists|)) in writer.Stored().fields
  {
    hide ListFlags, ListColumn, HasKey;
    ListsOfRows(writer.sentNonNulls + writer.nonNulls, writer.lists, rows);
    assert writer.lists == lists;
    if 7 !in writer.fields { NotIn(writer.fields.Keys, lists, 7); }
    var j :| 0 <= j < |writer.keys| && writer.keys[j] == 7;
    assert writer.Stored().fields[j] == Field(7, ListFlags(7, lists), ListColumn(7, lists, |lists|));
  }

  /** A repeated key in the first batch is stored: two values and one flag. */
  method RepeatedKeyStored() returns (ok: bool, s: Streams)
    ensures ok && Field(7, [true], [1, 2]) in s.fields && !WellFormed(s)
  {
    hide FlatMapFieldWriter.Valid, Accepted, RowsDistinct, WellFormed, Twice, MapBatch.Rows, MapBatch.Valid;
    hide ListFlags, ListColumn;
    var writer := new FlatMapFieldWriter();
    TwiceRows(writer.fields, writer.nonNullCount);
    ok := writer.Write(Twice());
    TwiceNotDistinct(writer.written);
    writer.StoredRows();
    TwiceColumn();
    assert HasKey(7, [(7, 1), (7, 2)]) by { assert [(7, 1), (7, 2)][0].0 == 7; }
    FieldStored(writer, writer.written, [[(7, 1), (7, 2)]]);
    s := writer.Stored();
  }

  /** The same after a chunk has been handed over, although a map has been written before. */
  method RepeatedKeyAfterChunk() returns (ok: bool, s: Streams)
    ensures ok && Field(7, [true, true], [1, 1, 2]) in s.fields && !WellFormed(s)
  {
    hide FlatMapFieldWriter.Valid, Accepted, RowsDistinct, WellFormed, Twice, KeptSent, ListFlags, ListColumn;
    var writer := new FlatMapFieldWriter();
    var b := MapBatch([Some(0)], [0], [1], [7], [1]);
    assert b.EntriesOf(0) == [(7, 1)];
    assert b.Rows() == [Some([(7, 1)])];
    OneDistinct(b.Rows());
    ok := writer.Write(b);
    assert HasKey(7, [(7, 1)]) by { assert [(7, 1)][0].0 == 7; }
    FieldStored(writer, writer.written, [[(7, 1)]]);
    assert 7 in writer.fields;
    writer.FlushChunk({7}, {}, false);
    assert 7 in writer.fields && writer.fields[7].inMap == [];
    TwiceRows(writer.fields, writer.nonNullCount);
    ok := writer.Write(Twice());
    assert writer.written == [Some([(7, 1)]), Some([(7, 1), (7, 2)])];
    TwiceNotDistinct(writer.written);
    writer.StoredRows();
    TwiceColumn();
    FieldStored(writer, writer.written, [[(7, 1)], [(7, 1), (7, 2)]]);
    s := writer.Stored();
  }

  lemma OneDistinct(rows: seq<EntryRow>)
    requires rows == [Some([(7, 1)])]
    ensures RowsDistinct(rows)
  {
  }
}
