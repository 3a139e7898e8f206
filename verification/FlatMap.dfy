/**
  Maps stored by key: for every key a flag per map, set where the map has the key, and the values of
  those maps.  The writer transposes rows into these streams, batch by batch; the merging reader
  transposes them back, one key at a time.
 */
module FlatMaps {
  import opened Wrappers
  import opened Sequences

  type Key = int
  type Item = int

  // ----- the streams

  /** One key: which maps have it, and its values in those. */
  datatype Field = Field(key: Key, inMap: seq<bool>, values: seq<Item>)

  /** `nonNulls` has a flag for every row; the fields have one for every row that is not null. */
  datatype Streams = Streams(nonNulls: seq<bool>, fields: seq<Field>)

  predicate WellFormed(s: Streams)
  {
    FieldsFit(s.fields, CountTrue(s.nonNulls)) && DistinctKeys(s.fields)
  }

  predicate FieldsFit(fields: seq<Field>, maps: nat)
  {
    forall j :: 0 <= j < |fields| ==> |fields[j].inMap| == maps && |fields[j].values| == CountTrue(fields[j].inMap)
  }

  predicate DistinctKeys(fields: seq<Field>)
  {
    forall i, j :: 0 <= i < j < |fields| ==> fields[i].key != fields[j].key
  }

  /** Map number `d`, as far as the first `n` fields go. */
  function MapAt(fields: seq<Field>, d: nat, n: nat): map<Key, Item>
    requires n <= |fields|
    requires forall j :: 0 <= j < |fields| ==>
      d < |fields[j].inMap| && |fields[j].values| == CountTrue(fields[j].inMap)
  {
    if n == 0 then map[]
    else if fields[n - 1].inMap[d] then
      RankBound(fields[n - 1].inMap, d);
      MapAt(fields, d, n - 1)[fields[n - 1].key := fields[n - 1].values[Rank(fields[n - 1].inMap, d)]]
    else MapAt(fields, d, n - 1)
  }

  /** The rows that the streams stand for. */
  function Rows(s: Streams): (rows: seq<Option<map<Key, Item>>>)
    requires WellFormed(s)
    ensures |rows| == |s.nonNulls|
  {
    seq(|s.nonNulls|, r requires 0 <= r < |s.nonNulls| =>
      if s.nonNulls[r] then RankBound(s.nonNulls, r); Some(MapAt(s.fields, Rank(s.nonNulls, r), |s.fields|)) else None)
  }

  lemma RowOf(s: Streams, r: nat)
    requires WellFormed(s) && r < |s.nonNulls|
    ensures !s.nonNulls[r] ==> Rows(s)[r] == None
    ensures s.nonNulls[r] ==> Rank(s.nonNulls, r) < CountTrue(s.nonNulls)
    ensures s.nonNulls[r] ==> Rows(s)[r] == Some(MapAt(s.fields, Rank(s.nonNulls, r), |s.fields|))
  {
    hide Rank, CountTrue, MapAt, DistinctKeys;
    if s.nonNulls[r] { RankBound(s.nonNulls, r); }
  }

  // ----- one batch of the merging reader

  /** Map `i` has `lengths[i]` entries from `offsets[i]` on. */
  datatype MapVector = MapVector(
    nonNulls: seq<bool>, offsets: seq<nat>, lengths: seq<nat>, keys: seq<Key>, values: seq<Item>)
  {
    predicate Valid()
    {
      && |offsets| == |lengths| == |nonNulls| && |keys| == |values|
      && forall i :: 0 <= i < |offsets| ==> offsets[i] + lengths[i] <= |keys|
    }

    /** The rows stand one after the other and fill the columns. */
    predicate LaidOut()
      requires Valid()
    {
      |keys| == Sum(lengths) && forall i :: 0 <= i < |offsets| ==> offsets[i] == Sum(lengths[..i])
    }

    function Rows(): seq<Option<map<Key, Item>>>
      requires Valid()
    {
      seq(|nonNulls|, i requires 0 <= i < |nonNulls| =>
        if nonNulls[i] then Some(EntryMap(keys, values, offsets[i], lengths[i])) else None)
    }
  }

  function EntryMap(keys: seq<Key>, values: seq<Item>, from: nat, n: nat): map<Key, Item>
    requires |keys| == |values| && from + n <= |keys|
  {
    if n == 0 then map[] else EntryMap(keys, values, from, n - 1)[keys[from + n - 1] := values[from + n - 1]]
  }

  predicate Has(nonNulls: seq<bool>, f: Field, i: nat)
    requires i < |nonNulls| && |f.inMap| == CountTrue(nonNulls)
  {
    nonNulls[i] && (RankBound(nonNulls, i); f.inMap[Rank(nonNulls, i)])
  }

  /** The value of node `f` for row `i`, and also how many rows before `i` have one. */
  function Source(nonNulls: seq<bool>, f: Field, i: nat): nat
    requires i <= |nonNulls| && |f.inMap| == CountTrue(nonNulls)
  {
    RankMono(nonNulls, i, |nonNulls|);
    Rank(f.inMap, Rank(nonNulls, i))
  }

  lemma SourceNext(nonNulls: seq<bool>, f: Field, i: nat)
    requires i < |nonNulls| && |f.inMap| == CountTrue(nonNulls)
    ensures Source(nonNulls, f, i + 1) == Source(nonNulls, f, i) + if Has(nonNulls, f, i) then 1 else 0
    ensures Has(nonNulls, f, i) ==> Source(nonNulls, f, i) < CountTrue(f.inMap)
    ensures Source(nonNulls, f, 0) == 0 && Source(nonNulls, f, |nonNulls|) == CountTrue(f.inMap)
  {
    RankNext(nonNulls, i);
    RankAll(nonNulls);
    RankAll(f.inMap);
    if nonNulls[i] {
      RankBound(nonNulls, i);
      RankNext(f.inMap, Rank(nonNulls, i));
      RankBounds(f.inMap, Rank(nonNulls, i));
    }
  }

  /** How many of the first `j` nodes have row `i`. */
  function Entries(nonNulls: seq<bool>, nodes: seq<Field>, i: nat, j: nat): (n: nat)
    requires i < |nonNulls| && j <= |nodes| && FieldsFit(nodes, CountTrue(nonNulls))
    ensures n <= j
  {
    if j == 0 then 0 else Entries(nonNulls, nodes, i, j - 1) + if Has(nonNulls, nodes[j - 1], i) then 1 else 0
  }

  lemma {:induction false} EntriesMono(nonNulls: seq<bool>, nodes: seq<Field>, i: nat, j: nat, k: nat)
    requires i < |nonNulls| && j <= k <= |nodes| && FieldsFit(nodes, CountTrue(nonNulls))
    ensures Entries(nonNulls, nodes, i, j) <= Entries(nonNulls, nodes, i, k)
    decreases k - j
  {
    if j < k { EntriesMono(nonNulls, nodes, i, j, k - 1); }
  }

  /** How many of the first `n` fields have map number `d`. */
  function FieldCount(fields: seq<Field>, d: nat, n: nat): nat
    requires n <= |fields| && forall j :: 0 <= j < |fields| ==> d < |fields[j].inMap|
  {
    if n == 0 then 0 else FieldCount(fields, d, n - 1) + if fields[n - 1].inMap[d] then 1 else 0
  }

  lemma {:induction false} EntriesCount(nonNulls: seq<bool>, nodes: seq<Field>, i: nat, j: nat)
    requires i < |nonNulls| && j <= |nodes| && FieldsFit(nodes, CountTrue(nonNulls))
    ensures nonNulls[i] ==> Rank(nonNulls, i) < CountTrue(nonNulls)
    ensures Entries(nonNulls, nodes, i, j) == if nonNulls[i] then FieldCount(nodes, Rank(nonNulls, i), j) else 0
  {
    hide Rank, CountTrue;
    if nonNulls[i] { RankBound(nonNulls, i); }
    if j > 0 { EntriesCount(nonNulls, nodes, i, j - 1); }
  }

  /** If no key is repeated, a map has as many entries as there are fields that have it. */
  lemma {:induction false} MapSize(fields: seq<Field>, d: nat, n: nat)
    requires n <= |fields| && DistinctKeys(fields)
    requires forall j :: 0 <= j < |fields| ==>
      d < |fields[j].inMap| && |fields[j].values| == CountTrue(fields[j].inMap)
    ensures |MapAt(fields, d, n)| == FieldCount(fields, d, n)
    ensures forall k :: k in MapAt(fields, d, n) ==> exists j :: 0 <= j < n && fields[j].key == k
  {
    hide Rank, CountTrue;
    if n > 0 {
      MapSize(fields, d, n - 1);
      if fields[n - 1].inMap[d] { RankBound(fields[n - 1].inMap, d); }
      var before, last := MapAt(fields, d, n - 1), fields[n - 1].key;
      assert last !in before;
      if fields[n - 1].inMap[d] { assert MapAt(fields, d, n).Keys == before.Keys + {last}; }
    }
  }

  /** Where the entries of row `i` start. */
  function Start(nonNulls: seq<bool>, nodes: seq<Field>, i: nat): nat
    requires i <= |nonNulls| && FieldsFit(nodes, CountTrue(nonNulls))
  {
    if i == 0 then 0 else Start(nonNulls, nodes, i - 1) + Entries(nonNulls, nodes, i - 1, |nodes|)
  }

  lemma {:induction false} StartMono(nonNulls: seq<bool>, nodes: seq<Field>, i: nat, k: nat)
    requires i <= k <= |nonNulls| && FieldsFit(nodes, CountTrue(nonNulls))
    ensures Start(nonNulls, nodes, i) <= Start(nonNulls, nodes, k)
    decreases k - i
  {
    if i < k { StartMono(nonNulls, nodes, i, k - 1); }
  }

  lemma StartNext(nonNulls: seq<bool>, nodes: seq<Field>, i: nat, j: nat)
    requires i < |nonNulls| && j < |nodes| && FieldsFit(nodes, CountTrue(nonNulls))
    ensures Start(nonNulls, nodes, 0) == 0
    ensures Start(nonNulls, nodes, i + 1) == Start(nonNulls, nodes, i) + Entries(nonNulls, nodes, i, |nodes|)
    ensures Entries(nonNulls, nodes, i, j + 1) ==
      Entries(nonNulls, nodes, i, j) + if Has(nonNulls, nodes[j], i) then 1 else 0
  {
  }

  /** The slot of row `i` and node `j`. */
  function Slot(nonNulls: seq<bool>, nodes: seq<Field>, i: nat, j: nat): nat
    requires i < |nonNulls| && j <= |nodes| && FieldsFit(nodes, CountTrue(nonNulls))
  {
    Start(nonNulls, nodes, i) + Entries(nonNulls, nodes, i, j)
  }

  /** Slots are taken row by row, and within a row node by node. */
  lemma SlotsAscend(nonNulls: seq<bool>, nodes: seq<Field>, i: nat, j: nat, i': nat, j': nat)
    requires FieldsFit(nodes, CountTrue(nonNulls)) && i < |nonNulls| && i' < |nonNulls| && j < |nodes| && j' < |nodes|
    requires Has(nonNulls, nodes[j], i) && (i < i' || (i == i' && j < j'))
    ensures Slot(nonNulls, nodes, i, j) < Slot(nonNulls, nodes, i', j')
  {
    hide Has, Start, Entries, Rank, CountTrue;
    StartNext(nonNulls, nodes, i, j);
    if i < i' {
      EntriesMono(nonNulls, nodes, i, j + 1, |nodes|);
      StartMono(nonNulls, nodes, i + 1, i');
    } else {
      EntriesMono(nonNulls, nodes, i, j + 1, j');
    }
  }

  /** Slots lie within the total and no two coincide. */
  lemma SlotsDiffer(nonNulls: seq<bool>, nodes: seq<Field>, i: nat, j: nat, i': nat, j': nat)
    requires FieldsFit(nodes, CountTrue(nonNulls)) && i < |nonNulls| && i' < |nonNulls| && j < |nodes| && j' < |nodes|
    requires Has(nonNulls, nodes[j], i) && Has(nonNulls, nodes[j'], i')
    ensures Slot(nonNulls, nodes, i, j) < Start(nonNulls, nodes, |nonNulls|)
    ensures (i, j) != (i', j') ==> Slot(nonNulls, nodes, i, j) != Slot(nonNulls, nodes, i', j')
  {
    hide Has, Start, Entries, Rank, CountTrue, Slot;
    SlotInside(nonNulls, nodes, i, j);
    if i < i' || (i == i' && j < j') { SlotsAscend(nonNulls, nodes, i, j, i', j'); }
    if i' < i || (i == i' && j' < j) { SlotsAscend(nonNulls, nodes, i', j', i, j); }
  }

  lemma SlotInside(nonNulls: seq<bool>, nodes: seq<Field>, i: nat, j: nat)
    requires FieldsFit(nodes, CountTrue(nonNulls)) && i < |nonNulls| && j < |nodes| && Has(nonNulls, nodes[j], i)
    ensures Slot(nonNulls, nodes, i, j) < Start(nonNulls, nodes, |nonNulls|)
  {
    hide Has, Start, Entries, Rank, CountTrue;
    StartNext(nonNulls, nodes, i, j);
    EntriesMono(nonNulls, nodes, i, j + 1, |nodes|);
    StartMono(nonNulls, nodes, i + 1, |nonNulls|);
  }

  /** What belongs into the slot of row `i` and node `j`: the key in one column, the value in the other. */
  function Content(nonNulls: seq<bool>, nodes: seq<Field>, isKey: bool, i: nat, j: nat): int
    requires FieldsFit(nodes, CountTrue(nonNulls)) && i < |nonNulls| && j < |nodes| && Has(nonNulls, nodes[j], i)
  {
    SourceNext(nonNulls, nodes[j], i);
    if isKey then nodes[j].key else nodes[j].values[Source(nonNulls, nodes[j], i)]
  }

  /** The slots of the first `j` nodes, and of node `j` for the first `upto` rows, are filled. */
  predicate Filled(nonNulls: seq<bool>, nodes: seq<Field>, column: seq<int>, isKey: bool, j: nat, upto: nat)
    requires j <= |nodes| && upto <= |nonNulls| && FieldsFit(nodes, CountTrue(nonNulls))
  {
    |column| == Start(nonNulls, nodes, |nonNulls|) &&
    forall i, jj ::
      (0 <= i < |nonNulls| && 0 <= jj < |nodes| && (jj < j || (jj == j && i < upto)) && Has(nonNulls, nodes[jj], i)) ==>
      (SlotsDiffer(nonNulls, nodes, i, jj, i, jj);
       column[Slot(nonNulls, nodes, i, jj)] == Content(nonNulls, nodes, isKey, i, jj))
  }

  /** The map of a row, as far as the first `j` nodes of the batch go. */
  lemma {:induction false} EntriesAreMap(
      nonNulls: seq<bool>, nodes: seq<Field>, keys: seq<Key>, values: seq<Item>, i: nat, j: nat)
    requires FieldsFit(nodes, CountTrue(nonNulls))
    requires Filled(nonNulls, nodes, keys, true, |nodes|, 0) && Filled(nonNulls, nodes, values, false, |nodes|, 0)
    requires i < |nonNulls| && nonNulls[i] && j <= |nodes|
    ensures Start(nonNulls, nodes, i) + Entries(nonNulls, nodes, i, j) <= |keys|
    ensures Rank(nonNulls, i) < CountTrue(nonNulls)
    ensures EntryMap(keys, values, Start(nonNulls, nodes, i), Entries(nonNulls, nodes, i, j)) ==
      MapAt(nodes, Rank(nonNulls, i), j)
  {
    hide Rank, CountTrue, Start, Filled;
    RankBound(nonNulls, i);
    FilledSize(nonNulls, nodes, keys, true);
    FilledSize(nonNulls, nodes, values, false);
    StartMono(nonNulls, nodes, i, |nonNulls|);
    if j > 0 {
      EntriesAreMap(nonNulls, nodes, keys, values, i, j - 1);
      if Has(nonNulls, nodes[j - 1], i) {
        SlotsDiffer(nonNulls, nodes, i, j - 1, i, j - 1);
        FilledAt(nonNulls, nodes, keys, true, i, j - 1);
        FilledAt(nonNulls, nodes, values, false, i, j - 1);
      }
    }
  }

  lemma FilledSize(nonNulls: seq<bool>, nodes: seq<Field>, column: seq<int>, isKey: bool)
    requires FieldsFit(nodes, CountTrue(nonNulls)) && Filled(nonNulls, nodes, column, isKey, |nodes|, 0)
    ensures |column| == Start(nonNulls, nodes, |nonNulls|)
  {
  }

  lemma FilledAt(nonNulls: seq<bool>, nodes: seq<Field>, column: seq<int>, isKey: bool, i: nat, j: nat)
    requires FieldsFit(nodes, CountTrue(nonNulls)) && Filled(nonNulls, nodes, column, isKey, |nodes|, 0)
    requires i < |nonNulls| && j < |nodes| && Has(nonNulls, nodes[j], i) && Slot(nonNulls, nodes, i, j) < |column|
    ensures column[Slot(nonNulls, nodes, i, j)] == Content(nonNulls, nodes, isKey, i, j)
  {
  }

  /** One more slot; the others keep their content. */
  lemma FillOne(nonNulls: seq<bool>, nodes: seq<Field>, column: seq<int>, isKey: bool, j: nat, i: nat)
    requires j < |nodes| && i < |nonNulls| && FieldsFit(nodes, CountTrue(nonNulls))
    requires Filled(nonNulls, nodes, column, isKey, j, i)
    ensures !Has(nonNulls, nodes[j], i) ==> Filled(nonNulls, nodes, column, isKey, j, i + 1)
    ensures Has(nonNulls, nodes[j], i) ==>
      && Slot(nonNulls, nodes, i, j) < |column|
      && Filled(nonNulls, nodes, column[Slot(nonNulls, nodes, i, j) := Content(nonNulls, nodes, isKey, i, j)],
        isKey, j, i + 1)
  {
    hide Has, Slot, Content, Start;
    if Has(nonNulls, nodes[j], i) {
      SlotsDiffer(nonNulls, nodes, i, j, i, j);
      var slot := Slot(nonNulls, nodes, i, j);
      var next := column[slot := Content(nonNulls, nodes, isKey, i, j)];
      forall r, n | 0 <= r < |nonNulls| && 0 <= n < |nodes| && (n < j || (n == j && r < i + 1)) &&
        Has(nonNulls, nodes[n], r)
        ensures Slot(nonNulls, nodes, r, n) < |next| &&
          next[Slot(nonNulls, nodes, r, n)] == Content(nonNulls, nodes, isKey, r, n)
      {
        SlotsDiffer(nonNulls, nodes, r, n, i, j);
      }
    }
  }

  lemma NodeFilled(nonNulls: seq<bool>, nodes: seq<Field>, column: seq<int>, isKey: bool, j: nat)
    requires j < |nodes| && FieldsFit(nodes, CountTrue(nonNulls))
    requires Filled(nonNulls, nodes, column, isKey, j, |nonNulls|)
    ensures Filled(nonNulls, nodes, column, isKey, j + 1, 0)
  {
    hide Has, Slot, Content, Start;
  }

  // ----- the merging loops

  /** `initRowWiseInMap`: the in-map flags of all nodes, row by row. */
  method InitRowWiseInMap(nonNulls: seq<bool>, nodes: seq<Field>) returns (rowWise: seq<seq<bool>>)
    requires FieldsFit(nodes, CountTrue(nonNulls))
    ensures |rowWise| == |nonNulls| && forall i :: 0 <= i < |rowWise| ==> |rowWise[i]| == |nodes|
    ensures forall i, j :: 0 <= i < |nonNulls| && 0 <= j < |nodes| ==> rowWise[i][j] == Has(nonNulls, nodes[j], i)
  {
    rowWise := seq(|nonNulls|, _ => Repeat(false, |nodes|));
    for j := 0 to |nodes|
      invariant |rowWise| == |nonNulls| && forall i :: 0 <= i < |rowWise| ==> |rowWise[i]| == |nodes|
      invariant forall i, jj {:trigger rowWise[i][jj]} :: 0 <= i < |nonNulls| && 0 <= jj < |nodes| ==>
        rowWise[i][jj] == (jj < j && Has(nonNulls, nodes[jj], i))
    {
      rowWise := MarkRows(nonNulls, nodes, j, rowWise);
    }
  }

  method MarkRows(nonNulls: seq<bool>, nodes: seq<Field>, j: nat,
        before: seq<seq<bool>>)
    returns (rowWise: seq<seq<bool>>)
    requires FieldsFit(nodes, CountTrue(nonNulls)) && j < |nodes|
    requires |before| == |nonNulls| && forall i :: 0 <= i < |before| ==> |before[i]| == |nodes| && !before[i][j]
    ensures |rowWise| == |nonNulls|
    ensures forall i :: 0 <= i < |nonNulls| ==> rowWise[i] == before[i][j := Has(nonNulls, nodes[j], i)]
  {
    hide Rank, CountTrue;
    rowWise := before;
    var inMapIndex: nat := 0;
    RankAll(nonNulls);
    for i := 0 to |nonNulls|
      invariant |rowWise| == |nonNulls| && inMapIndex == Rank(nonNulls, i)
      invariant forall r :: 0 <= r < |nonNulls| ==>
        rowWise[r] == if r < i then before[r][j := Has(nonNulls, nodes[j], r)] else before[r]
    {
      RankNext(nonNulls, i);
      RankBounds(nonNulls, i);
      var isNull := !nonNulls[i];
      assert before[i][j := false] == before[i];
      if !isNull && nodes[j].inMap[inMapIndex] {
        rowWise := rowWise[i := rowWise[i][j := true]];
      }
      if !isNull { inMapIndex := inMapIndex + 1; }
    }
  }

  /** `initOffsets` */
  method InitOffsets(nonNulls: seq<bool>, nodes: seq<Field>, rowWise: seq<seq<bool>>)
    returns (offsets: seq<nat>, lengths: seq<nat>)
    requires FieldsFit(nodes, CountTrue(nonNulls))
    requires |rowWise| == |nonNulls| && forall i :: 0 <= i < |rowWise| ==> |rowWise[i]| == |nodes|
    requires forall i, j :: 0 <= i < |nonNulls| && 0 <= j < |nodes| ==> rowWise[i][j] == Has(nonNulls, nodes[j], i)
    ensures |offsets| == |lengths| == |nonNulls|
    ensures forall i :: 0 <= i < |nonNulls| ==>
      offsets[i] == Start(nonNulls, nodes, i) && lengths[i] == Entries(nonNulls, nodes, i, |nodes|)
  {
    hide Has, Rank, CountTrue, Entries;
    offsets, lengths := [], [];
    var offset: nat := 0;
    for i := 0 to |nonNulls|
      invariant |offsets| == |lengths| == i && offset == Start(nonNulls, nodes, i)
      invariant forall r :: 0 <= r < i ==>
        offsets[r] == Start(nonNulls, nodes, r) && lengths[r] == Entries(nonNulls, nodes, r, |nodes|)
    {
      var count := CountBits(nonNulls, nodes, i, rowWise[i]);
      offsets := offsets + [offset];
      lengths := lengths + [count];
      offset := offset + count;
    }
  }

  method CountBits(nonNulls: seq<bool>, nodes: seq<Field>, i: nat, row: seq<bool>) returns (count: nat)
    requires FieldsFit(nodes, CountTrue(nonNulls)) && i < |nonNulls| && |row| == |nodes|
    requires forall j :: 0 <= j < |nodes| ==> row[j] == Has(nonNulls, nodes[j], i)
    ensures count == Entries(nonNulls, nodes, i, |nodes|)
  {
    hide Has, Rank, CountTrue;
    count := 0;
    for j := 0 to |row|
      invariant count == Entries(nonNulls, nodes, i, j)
    {
      if row[j] { count := count + 1; }
    }
  }

  /** Where the values of a node go: value `s` to `targets[s]`. */
  ghost predicate Targets(nonNulls: seq<bool>, nodes: seq<Field>, j: nat, upto: nat, targets: seq<nat>)
    requires FieldsFit(nodes, CountTrue(nonNulls)) && j < |nodes| && upto <= |nonNulls|
  {
    && |targets| == Source(nonNulls, nodes[j], upto)
    && forall i :: 0 <= i < upto && Has(nonNulls, nodes[j], i) ==>
      Source(nonNulls, nodes[j], i) < |targets| && targets[Source(nonNulls, nodes[j], i)] == Slot(nonNulls, nodes, i, j)
  }

  /** One node: writes its key into its slots, notes where its values go and advances the rows' offsets. */
  method PlaceKeys(nonNulls: seq<bool>, nodes: seq<Field>, j: nat, rowWise: seq<seq<bool>>, offsets: seq<nat>,
        keys: seq<Key>)
    returns (offsets': seq<nat>, keys': seq<Key>, targets: seq<nat>)
    requires FieldsFit(nodes, CountTrue(nonNulls)) && j < |nodes|
    requires |rowWise| == |nonNulls| && forall i :: 0 <= i < |rowWise| ==> |rowWise[i]| == |nodes|
    requires forall i, jj :: 0 <= i < |nonNulls| && 0 <= jj < |nodes| ==> rowWise[i][jj] == Has(nonNulls, nodes[jj], i)
    requires |offsets| == |nonNulls| && forall i :: 0 <= i < |nonNulls| ==> offsets[i] == Slot(nonNulls, nodes, i, j)
    requires Filled(nonNulls, nodes, keys, true, j, 0)
    ensures |offsets'| == |nonNulls| &&
      forall i :: 0 <= i < |nonNulls| ==> offsets'[i] == Slot(nonNulls, nodes, i, j + 1)
    ensures Filled(nonNulls, nodes, keys', true, j + 1, 0) && Targets(nonNulls, nodes, j, |nonNulls|, targets)
  {
    hide Has, Filled, Source, Start, Rank, CountTrue;
    offsets', keys', targets := offsets, keys, [];
    SourceZero(nonNulls, nodes[j]);
    for i := 0 to |nonNulls|
      invariant |offsets'| == |nonNulls|
      invariant forall r :: 0 <= r < |nonNulls| ==> offsets'[r] == Slot(nonNulls, nodes, r, if r < i then j + 1 else j)
      invariant Filled(nonNulls, nodes, keys', true, j, i) && Targets(nonNulls, nodes, j, i, targets)
    {
      SourceNext(nonNulls, nodes[j], i);
      FillOne(nonNulls, nodes, keys', true, j, i);
      if !rowWise[i][j] { continue; }
      targets := targets + [offsets'[i]];
      keys' := keys'[offsets'[i] := nodes[j].key];
      offsets' := offsets'[i := offsets'[i] + 1];
    }
    NodeFilled(nonNulls, nodes, keys', true, j);
  }

  lemma SourceZero(nonNulls: seq<bool>, f: Field)
    requires |f.inMap| == CountTrue(nonNulls)
    ensures Source(nonNulls, f, 0) == 0
  {
  }

  /** `copyRanges`: value `s` goes to position `targets[s]`. */
  method CopyValues(
      nonNulls: seq<bool>, nodes: seq<Field>, j: nat, targets: seq<nat>, nodeValues: seq<Item>, values: seq<Item>)
    returns (values': seq<Item>)
    requires FieldsFit(nodes, CountTrue(nonNulls)) && j < |nodes| && nodeValues == nodes[j].values
    requires Filled(nonNulls, nodes, values, false, j, 0) && Targets(nonNulls, nodes, j, |nonNulls|, targets)
    ensures Filled(nonNulls, nodes, values', false, j + 1, 0)
  {
    hide Has, Filled, Source, Start, Rank, CountTrue;
    values' := values;
    var s: nat := 0;
    SourceZero(nonNulls, nodes[j]);
    ghost var i: nat := 0;
    while s < |targets|
      invariant i <= |nonNulls| && s == Source(nonNulls, nodes[j], i) <= |targets|
      invariant Filled(nonNulls, nodes, values', false, j, i)
      decreases |nonNulls| - i, |targets| - s
    {
      ghost var next := NextRow(nonNulls, nodes, j, i, values');
      SourceNext(nonNulls, nodes[j], next);
      FillOne(nonNulls, nodes, values', false, j, next);
      i := next + 1;
      values' := values'[targets[s] := nodeValues[s]];
      s := s + 1;
    }
    RestFilled(nonNulls, nodes, j, i, values');
    NodeFilled(nonNulls, nodes, values', false, j);
  }

  /** The next row that has the node; the rows before it have no slot to fill. */
  lemma NextRow(nonNulls: seq<bool>, nodes: seq<Field>, j: nat, i: nat, values: seq<Item>) returns (next: nat)
    requires FieldsFit(nodes, CountTrue(nonNulls)) && j < |nodes| && i <= |nonNulls|
    requires Source(nonNulls, nodes[j], i) < Source(nonNulls, nodes[j], |nonNulls|)
    requires Filled(nonNulls, nodes, values, false, j, i)
    ensures i <= next < |nonNulls| && Has(nonNulls, nodes[j], next)
    ensures Source(nonNulls, nodes[j], next) == Source(nonNulls, nodes[j], i) &&
      Filled(nonNulls, nodes, values, false, j, next)
    decreases |nonNulls| - i
  {
    hide Has, Filled, Source, Start, Rank, CountTrue;
    SourceNext(nonNulls, nodes[j], i);
    if Has(nonNulls, nodes[j], i) { return i; }
    FillOne(nonNulls, nodes, values, false, j, i);
    next := NextRow(nonNulls, nodes, j, i + 1, values);
  }

  lemma {:induction false} RestFilled(nonNulls: seq<bool>, nodes: seq<Field>, j: nat, i: nat, values: seq<Item>)
    requires FieldsFit(nodes, CountTrue(nonNulls)) && j < |nodes| && i <= |nonNulls|
    requires Source(nonNulls, nodes[j], i) >= Source(nonNulls, nodes[j], |nonNulls|)
    requires Filled(nonNulls, nodes, values, false, j, i)
    ensures Filled(nonNulls, nodes, values, false, j, |nonNulls|)
    decreases |nonNulls| - i
  {
    hide Has, Filled, Source, Start, Rank, CountTrue;
    if i < |nonNulls| {
      SourceNext(nonNulls, nodes[j], i);
      SourceMono(nonNulls, nodes[j], i + 1);
      FillOne(nonNulls, nodes, values, false, j, i);
      RestFilled(nonNulls, nodes, j, i + 1, values);
    }
  }

  lemma SourceMono(nonNulls: seq<bool>, f: Field, i: nat)
    requires i <= |nonNulls| && |f.inMap| == CountTrue(nonNulls)
    ensures Source(nonNulls, f, i) <= Source(nonNulls, f, |nonNulls|)
  {
    hide Rank;
    RankMono(nonNulls, i, |nonNulls|);
    RankMono(f.inMap, Rank(nonNulls, i), Rank(nonNulls, |nonNulls|));
  }

  /** The node by node loop of the merging reader. */
  method MergeNodes(nonNulls: seq<bool>, nodes: seq<Field>) returns (output: MapVector)
    requires FieldsFit(nodes, CountTrue(nonNulls))
    ensures output.Valid() && output.nonNulls == nonNulls
    ensures forall i :: 0 <= i < |nonNulls| && nonNulls[i] ==>
      Rank(nonNulls, i) < CountTrue(nonNulls) && output.Rows()[i] == Some(MapAt(nodes, Rank(nonNulls, i), |nodes|))
    ensures output.LaidOut() && |output.lengths| == |nonNulls|
    ensures forall i :: 0 <= i < |nonNulls| ==>
      output.lengths[i] == if nonNulls[i] then FieldCount(nodes, Rank(nonNulls, i), |nodes|) else 0
  {
    hide Has, Filled, Source, Rank, CountTrue, MapAt, EntryMap;
    var rowWise := InitRowWiseInMap(nonNulls, nodes);
    var offsets, lengths := InitOffsets(nonNulls, nodes, rowWise);
    var totalChildren := CountChildren(lengths);
    LengthsTotal(nonNulls, nodes, lengths, |lengths|);
    var keys := Repeat(0, totalChildren);
    var values := Repeat(0, totalChildren);
    NothingFilled(nonNulls, nodes, keys, true);
    NothingFilled(nonNulls, nodes, values, false);
    for j := 0 to |nodes|
      invariant |offsets| == |nonNulls| && forall i :: 0 <= i < |nonNulls| ==> offsets[i] == Slot(nonNulls, nodes, i, j)
      invariant Filled(nonNulls, nodes, keys, true, j, 0) && Filled(nonNulls, nodes, values, false, j, 0)
    {
      var targets;
      offsets, keys, targets := PlaceKeys(nonNulls, nodes, j, rowWise, offsets, keys);
      values := CopyValues(nonNulls, nodes, j, targets, nodes[j].values, values);
    }
    if |nonNulls| > 0 {
      // Each offset has moved on to where the next row starts.
      offsets := [0] + offsets[..|nonNulls| - 1];
    }
    output := MapVector(nonNulls, offsets, lengths, keys, values);
    MergedRows(nodes, output);
    MergedLayout(nodes, output);
  }

  lemma MergedLayout(nodes: seq<Field>, output: MapVector)
    requires
      var nonNulls := output.nonNulls;
      && FieldsFit(nodes, CountTrue(nonNulls)) && output.Valid()
      && Filled(nonNulls, nodes, output.keys, true, |nodes|, 0)
      && forall i :: 0 <= i < |nonNulls| ==>
        output.offsets[i] == Start(nonNulls, nodes, i) && output.lengths[i] == Entries(nonNulls, nodes, i, |nodes|)
    ensures output.LaidOut()
    ensures forall i :: 0 <= i < |output.nonNulls| ==>
      && (output.nonNulls[i] ==> Rank(output.nonNulls, i) < CountTrue(output.nonNulls))
      && output.lengths[i] ==
        if output.nonNulls[i] then FieldCount(nodes, Rank(output.nonNulls, i), |nodes|) else 0
  {
    hide Has, Filled, Rank, CountTrue, Start, Entries, FieldCount;
    var nonNulls := output.nonNulls;
    FilledSize(nonNulls, nodes, output.keys, true);
    LengthsTotal(nonNulls, nodes, output.lengths, |nonNulls|);
    forall i | 0 <= i < |nonNulls|
      ensures output.offsets[i] == Sum(output.lengths[..i])
      ensures nonNulls[i] ==> Rank(nonNulls, i) < CountTrue(nonNulls)
      ensures output.lengths[i] == if nonNulls[i] then FieldCount(nodes, Rank(nonNulls, i), |nodes|) else 0
    {
      LengthsTotal(nonNulls, nodes, output.lengths, i);
      EntriesCount(nonNulls, nodes, i, |nodes|);
    }
  }

  /** Full columns, cut where the rows start, are the maps. */
  lemma MergedRows(nodes: seq<Field>, output: MapVector)
    requires
      var nonNulls := output.nonNulls;
      && FieldsFit(nodes, CountTrue(nonNulls)) && |output.offsets| == |output.lengths| == |nonNulls|
      && Filled(nonNulls, nodes, output.keys, true, |nodes|, 0)
      && Filled(nonNulls, nodes, output.values, false, |nodes|, 0)
      && forall i :: 0 <= i < |nonNulls| ==>
        output.offsets[i] == Start(nonNulls, nodes, i) && output.lengths[i] == Entries(nonNulls, nodes, i, |nodes|)
    ensures output.Valid()
    ensures forall i :: 0 <= i < |output.nonNulls| && output.nonNulls[i] ==>
      Rank(output.nonNulls, i) < CountTrue(output.nonNulls) &&
      output.Rows()[i] == Some(MapAt(nodes, Rank(output.nonNulls, i), |nodes|))
  {
    hide Has, Filled, Source, Rank, CountTrue, MapAt, EntryMap, Start, Entries;
    var nonNulls := output.nonNulls;
    FilledSize(nonNulls, nodes, output.keys, true);
    FilledSize(nonNulls, nodes, output.values, false);
    forall i | 0 <= i < |nonNulls| ensures output.offsets[i] + output.lengths[i] <= |output.keys| {
      StartRow(nonNulls, nodes, i);
      StartMono(nonNulls, nodes, i + 1, |nonNulls|);
    }
    forall i | 0 <= i < |nonNulls| && nonNulls[i]
      ensures Rank(nonNulls, i) < CountTrue(nonNulls)
      ensures output.Rows()[i] == Some(MapAt(nodes, Rank(nonNulls, i), |nodes|))
    {
      EntriesAreMap(nonNulls, nodes, output.keys, output.values, i, |nodes|);
    }
  }

  lemma StartRow(nonNulls: seq<bool>, nodes: seq<Field>, i: nat)
    requires i < |nonNulls| && FieldsFit(nodes, CountTrue(nonNulls))
    ensures Start(nonNulls, nodes, i + 1) == Start(nonNulls, nodes, i) + Entries(nonNulls, nodes, i, |nodes|)
  {
  }

  method CountChildren(lengths: seq<nat>) returns (total: nat)
    ensures total == Sum(lengths)
  {
    total := 0;
    SumAll(lengths);
    for i := 0 to |lengths|
      invariant total == Sum(lengths[..i])
    {
      SumNext(lengths, i);
      total := total + lengths[i];
    }
  }

  lemma {:induction false} LengthsTotal(nonNulls: seq<bool>, nodes: seq<Field>, lengths: seq<nat>, i: nat)
    requires FieldsFit(nodes, CountTrue(nonNulls)) && |lengths| == |nonNulls| && i <= |nonNulls|
    requires forall r :: 0 <= r < |nonNulls| ==> lengths[r] == Entries(nonNulls, nodes, r, |nodes|)
    ensures Start(nonNulls, nodes, i) == Sum(lengths[..i])
    ensures i == |lengths| ==> Start(nonNulls, nodes, i) == Sum(lengths)
  {
    SumAll(lengths);
    if i > 0 {
      LengthsTotal(nonNulls, nodes, lengths, i - 1);
      SumNext(lengths, i - 1);
    }
  }

  lemma NothingFilled(nonNulls: seq<bool>, nodes: seq<Field>, column: seq<int>, isKey: bool)
    requires FieldsFit(nodes, CountTrue(nonNulls)) && |column| == Start(nonNulls, nodes, |nonNulls|)
    ensures Filled(nonNulls, nodes, column, isKey, 0, 0)
  {
  }
}
