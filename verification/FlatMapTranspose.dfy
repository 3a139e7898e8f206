/**
  Transposing maps into streams by key and back, and what the streams are of maps that are given as lists of
  entries, in which a key may occur twice.
 */
module FlatMapTranspose {
  import opened Wrappers
  import opened Sequences
  import opened Vectors
  import opened FlatMaps

  predicate AllDiffer(s: seq<Key>)
  {
    forall a, c :: 0 <= a < c < |s| ==> s[a] != s[c]
  }

  // ----- maps

  /** Which of the maps have the key. */
  function Flags(key: Key, maps: seq<map<Key, Item>>): (f: seq<bool>)
    ensures |f| == |maps|
  {
    seq(|maps|, d requires 0 <= d < |maps| => key in maps[d])
  }

  /** The values the key has in the first `n` maps. */
  function Column(key: Key, maps: seq<map<Key, Item>>, n: nat): seq<Item>
    requires n <= |maps|
  {
    if n == 0 then [] else Column(key, maps, n - 1) + ValueIn(key, maps[n - 1])
  }

  function ValueIn(key: Key, m: map<Key, Item>): seq<Item>
  {
    if key in m then [m[key]] else []
  }

  /** The value of a map stands where its rank among the maps with the key says. */
  lemma {:induction false} ColumnAt(key: Key, maps: seq<map<Key, Item>>, d: nat, n: nat)
    requires d <= n <= |maps|
    ensures Rank(Flags(key, maps), d) == |Column(key, maps, d)| <= |Column(key, maps, n)|
    ensures d < n && key in maps[d] ==>
      |Column(key, maps, d)| < |Column(key, maps, n)| && Column(key, maps, n)[|Column(key, maps, d)|] == maps[d][key]
    decreases n
  {
    if n == 0 {
    } else if d == n {
      ColumnAt(key, maps, n - 1, n - 1);
    } else {
      ColumnAt(key, maps, d, n - 1);
    }
  }

  /** The streams of the given keys for the given maps. */
  function Transposed(keys: seq<Key>, maps: seq<map<Key, Item>>): (fields: seq<Field>)
    ensures |fields| == |keys| && FieldsFit(fields, |maps|)
    ensures forall j :: 0 <= j < |keys| ==> fields[j].key == keys[j] && fields[j].inMap == Flags(keys[j], maps)
  {
    var fields := seq(|keys|, j requires 0 <= j < |keys| =>
      Field(keys[j], Flags(keys[j], maps), Column(keys[j], maps, |maps|)));
    assert FieldsFit(fields, |maps|) by {
      forall j | 0 <= j < |keys| ensures |fields[j].values| == CountTrue(fields[j].inMap) {
        ColumnAt(keys[j], maps, |maps|, |maps|);
      }
    }
    fields
  }

  /** Transposing back: map `d`, as far as the first `n` keys go. */
  lemma {:induction false} TransposedBack(keys: seq<Key>, maps: seq<map<Key, Item>>, d: nat, n: nat)
    requires d < |maps| && n <= |keys|
    ensures
      var m := MapAt(Transposed(keys, maps), d, n);
      forall k :: (k in m <==> k in keys[..n] && k in maps[d]) && (k in m ==> m[k] == maps[d][k])
  {
    hide Rank, CountTrue, Flags, Column;
    if n > 0 {
      TransposedBack(keys, maps, d, n - 1);
      TransposedField(keys, maps, n - 1, d);
      assert keys[..n] == keys[..n - 1] + [keys[n - 1]];
    }
  }

  lemma TransposedField(keys: seq<Key>, maps: seq<map<Key, Item>>, j: nat, d: nat)
    requires j < |keys| && d < |maps|
    ensures
      var f := Transposed(keys, maps)[j];
      && f.key == keys[j] && f.inMap[d] == (keys[j] in maps[d])
      && (f.inMap[d] ==> Rank(f.inMap, d) < |f.values| && f.values[Rank(f.inMap, d)] == maps[d][keys[j]])
  {
    ColumnAt(keys[j], maps, d, |maps|);
  }

  /** Every key of every map is among the keys. */
  predicate Covers(keys: set<Key>, maps: seq<map<Key, Item>>)
  {
    forall d :: 0 <= d < |maps| ==> maps[d].Keys <= keys
  }

  /** The rows: the items in order, with nulls between them. */
  function RowsOf<T>(nonNulls: seq<bool>, items: seq<T>): (rows: seq<Option<T>>)
    requires |items| == CountTrue(nonNulls)
    ensures |rows| == |nonNulls|
  {
    seq(|nonNulls|, r requires 0 <= r < |nonNulls| =>
      if nonNulls[r] then RankBound(nonNulls, r); Some(items[Rank(nonNulls, r)]) else None)
  }

  /** Transposing loses nothing. */
  lemma TransposedRows(nonNulls: seq<bool>, keys: seq<Key>, maps: seq<map<Key, Item>>)
    requires |maps| == CountTrue(nonNulls) && Covers((set k | k in keys), maps) && AllDiffer(keys)
    ensures WellFormed(Streams(nonNulls, Transposed(keys, maps)))
    ensures Rows(Streams(nonNulls, Transposed(keys, maps))) == RowsOf(nonNulls, maps)
  {
    hide Rank, CountTrue, Transposed, MapAt, Rows;
    var s := Streams(nonNulls, Transposed(keys, maps));
    var rows, expected := Rows(s), RowsOf(nonNulls, maps);
    forall r | 0 <= r < |nonNulls| ensures rows[r] == expected[r] {
      RowOf(s, r);
      if nonNulls[r] {
        var d := Rank(nonNulls, r);
        TransposedBack(keys, maps, d, |keys|);
        assert keys[..|keys|] == keys;
        var m := MapAt(s.fields, d, |keys|);
        assert maps[d].Keys <= set k | k in keys;
        assert m == maps[d] by { assert forall k :: k in m <==> k in maps[d]; }
      }
    }
  }

  // ----- maps as lists of entries

  type Entries = seq<(Key, Item)>

  predicate HasKey(key: Key, es: Entries)
  {
    exists e :: 0 <= e < |es| && es[e].0 == key
  }

  lemma HasKeyNext(key: Key, es: Entries, x: (Key, Item))
    ensures HasKey(key, es + [x]) <==> HasKey(key, es) || x.0 == key
    ensures !HasKey(key, [])
  {
    var all := es + [x];
    if HasKey(key, es) {
      var e :| 0 <= e < |es| && es[e].0 == key;
      assert all[e].0 == key;
    }
    assert all[|es|] == x;
  }

  /** The values of the entries with the key. */
  function ValuesOf(key: Key, es: Entries): seq<Item>
  {
    if es == [] then []
    else
      var x := es[|es| - 1];
      ValuesOf(key, es[..|es| - 1]) + if x.0 == key then [x.1] else []
  }

  lemma ValuesOfNext(key: Key, es: Entries, x: (Key, Item))
    ensures ValuesOf(key, es + [x]) == ValuesOf(key, es) + if x.0 == key then [x.1] else []
    ensures ValuesOf(key, []) == []
  {
    assert (es + [x])[..|es|] == es;
  }

  /** The map that the entries make; a later entry replaces an earlier one. */
  function AsMap(es: Entries): map<Key, Item>
  {
    if es == [] then map[] else AsMap(es[..|es| - 1])[es[|es| - 1].0 := es[|es| - 1].1]
  }

  predicate NoKeyTwice(es: Entries)
  {
    forall a, c :: 0 <= a < c < |es| ==> es[a].0 != es[c].0
  }

  lemma NoKeyTwiceNext(es: Entries, x: (Key, Item))
    ensures NoKeyTwice(es + [x]) <==> NoKeyTwice(es) && !HasKey(x.0, es)
  {
    var all := es + [x];
    assert forall a :: 0 <= a < |es| ==> all[a] == es[a];
    assert all[|es|] == x;
    if HasKey(x.0, es) {
      var e :| 0 <= e < |es| && es[e].0 == x.0;
      assert all[e].0 == all[|es|].0;
    }
    if !NoKeyTwice(es) {
      var a, c :| 0 <= a < c < |es| && es[a].0 == es[c].0;
      assert all[a].0 == all[c].0;
    }
  }

  /** Flag and values of a key say what its map says exactly if the key occurs at most once. */
  lemma {:induction false} KeyOfEntries(key: Key, es: Entries)
    ensures HasKey(key, es) <==> key in AsMap(es)
    ensures |ValuesOf(key, es)| >= (if HasKey(key, es) then 1 else 0)
    ensures NoKeyTwice(es) ==> ValuesOf(key, es) == ValueIn(key, AsMap(es))
  {
    if es != [] {
      var rest, x := es[..|es| - 1], es[|es| - 1];
      assert es == rest + [x];
      KeyOfEntries(key, rest);
      HasKeyNext(key, rest, x);
      NoKeyTwiceNext(rest, x);
    }
  }

  /** Some key has two values. */
  lemma {:induction false} TwoValues(es: Entries) returns (key: Key)
    requires !NoKeyTwice(es)
    ensures HasKey(key, es) && |ValuesOf(key, es)| >= 2
  {
    var rest, x := es[..|es| - 1], es[|es| - 1];
    assert es == rest + [x];
    NoKeyTwiceNext(rest, x);
    if NoKeyTwice(rest) {
      key := x.0;
      KeyOfEntries(key, rest);
    } else {
      key := TwoValues(rest);
    }
    HasKeyNext(key, rest, x);
  }

  /** Which of the lists have the key. */
  function ListFlags(key: Key, lists: seq<Entries>): (f: seq<bool>)
    ensures |f| == |lists|
  {
    seq(|lists|, d requires 0 <= d < |lists| => HasKey(key, lists[d]))
  }

  /** The values the key has in the first `n` lists. */
  function ListColumn(key: Key, lists: seq<Entries>, n: nat): seq<Item>
    requires n <= |lists|
  {
    if n == 0 then [] else ListColumn(key, lists, n - 1) + ValuesOf(key, lists[n - 1])
  }

  lemma {:induction false} ListColumnPrefix(key: Key, lists: seq<Entries>, more: seq<Entries>, n: nat)
    requires n <= |lists|
    ensures ListColumn(key, lists + more, n) == ListColumn(key, lists, n)
  {
    if n > 0 { ListColumnPrefix(key, lists, more, n - 1); }
  }

  lemma ListColumnNext(key: Key, lists: seq<Entries>, es: Entries)
    ensures ListColumn(key, lists + [es], |lists| + 1) == ListColumn(key, lists, |lists|) + ValuesOf(key, es)
  {
    ListColumnPrefix(key, lists, [es], |lists|);
  }

  lemma {:induction false} ListColumnConcat(key: Key, lists: seq<Entries>, more: seq<Entries>, n: nat)
    requires n <= |more|
    ensures ListColumn(key, lists + more, |lists| + n) == ListColumn(key, lists, |lists|) + ListColumn(key, more, n)
  {
    if n == 0 {
      ListColumnPrefix(key, lists, more, |lists|);
    } else {
      ListColumnConcat(key, lists, more, n - 1);
      assert (lists + more)[|lists| + n - 1] == more[n - 1];
    }
  }

  /** The streams of the given keys for the given lists. */
  function ListTransposed(keys: seq<Key>, lists: seq<Entries>): (fields: seq<Field>)
    ensures |fields| == |keys|
  {
    seq(|keys|, j requires 0 <= j < |keys| =>
      Field(keys[j], ListFlags(keys[j], lists), ListColumn(keys[j], lists, |lists|)))
  }

  predicate EntriesIn(keys: set<Key>, es: Entries)
  {
    forall e :: 0 <= e < |es| ==> es[e].0 in keys
  }

  /** Every key of every list is among the keys. */
  predicate ListsIn(keys: set<Key>, lists: seq<Entries>)
  {
    forall d :: 0 <= d < |lists| ==> EntriesIn(keys, lists[d])
  }

  predicate NoneTwice(lists: seq<Entries>)
  {
    forall d :: 0 <= d < |lists| ==> NoKeyTwice(lists[d])
  }

  function AsMaps(lists: seq<Entries>): (maps: seq<map<Key, Item>>)
    ensures |maps| == |lists|
  {
    seq(|lists|, d requires 0 <= d < |lists| => AsMap(lists[d]))
  }

  lemma {:induction false} ColumnOfMaps(key: Key, lists: seq<Entries>, n: nat)
    requires NoneTwice(lists) && n <= |lists|
    ensures ListColumn(key, lists, n) == Column(key, AsMaps(lists), n)
  {
    hide ValuesOf, AsMap, ValueIn, NoKeyTwice;
    if n > 0 {
      ColumnOfMaps(key, lists, n - 1);
      KeyOfEntries(key, lists[n - 1]);
    }
  }

  /** Without repeated keys the streams are those of the maps. */
  lemma TransposedMaps(keys: seq<Key>, lists: seq<Entries>)
    requires NoneTwice(lists)
    ensures ListTransposed(keys, lists) == Transposed(keys, AsMaps(lists))
  {
    hide AsMap, HasKey, Column, ListColumn, NoKeyTwice;
    var maps := AsMaps(lists);
    forall j | 0 <= j < |keys| ensures ListTransposed(keys, lists)[j] == Transposed(keys, maps)[j] {
      ColumnOfMaps(keys[j], lists, |lists|);
      forall d | 0 <= d < |lists| ensures HasKey(keys[j], lists[d]) == (keys[j] in maps[d]) {
        KeyOfEntries(keys[j], lists[d]);
      }
      assert ListFlags(keys[j], lists) == Flags(keys[j], maps);
    }
  }

  lemma CoversMaps(keys: set<Key>, lists: seq<Entries>)
    requires ListsIn(keys, lists)
    ensures Covers(keys, AsMaps(lists))
  {
    hide AsMap;
    var maps := AsMaps(lists);
    forall d | 0 <= d < |maps| ensures maps[d].Keys <= keys {
      forall k | k in maps[d] ensures k in keys {
        KeyOfEntries(k, lists[d]);
        var e :| 0 <= e < |lists[d]| && lists[d][e].0 == k;
      }
    }
  }

  /** No flag is without a value, and a list that has the key twice leaves a value without a flag. */
  lemma {:induction false} ColumnSize(key: Key, lists: seq<Entries>, n: nat)
    requires n <= |lists|
    ensures Rank(ListFlags(key, lists), n) <= |ListColumn(key, lists, n)|
    ensures (exists d :: 0 <= d < n && |ValuesOf(key, lists[d])| >= 2) ==>
      Rank(ListFlags(key, lists), n) < |ListColumn(key, lists, n)|
  {
    hide ValuesOf, HasKey;
    if n > 0 {
      ColumnSize(key, lists, n - 1);
      KeyOfEntries(key, lists[n - 1]);
    }
  }

  /** A repeated key leaves streams that do not fit each other. */
  lemma RepeatedBreaks(keys: seq<Key>, lists: seq<Entries>, count: nat)
    requires ListsIn((set k | k in keys), lists) && !NoneTwice(lists)
    ensures !FieldsFit(ListTransposed(keys, lists), count)
  {
    hide ValuesOf, NoKeyTwice, Rank, CountTrue, ListColumn, ListFlags;
    var d :| 0 <= d < |lists| && !NoKeyTwice(lists[d]);
    var key := TwoValues(lists[d]);
    var e :| 0 <= e < |lists[d]| && lists[d][e].0 == key;
    assert EntriesIn((set k | k in keys), lists[d]);
    var j :| 0 <= j < |keys| && keys[j] == key;
    ColumnSize(key, lists, |lists|);
    RankAll(ListFlags(key, lists));
    var f := ListTransposed(keys, lists)[j];
    assert |f.values| != CountTrue(f.inMap);
  }

  // ----- rows

  type EntryRow = Option<Entries>

  predicate RowsDistinct(rows: seq<EntryRow>)
  {
    forall r :: 0 <= r < |rows| && rows[r].Some? ==> NoKeyTwice(rows[r].value)
  }

  function MapRow(row: EntryRow): Option<map<Key, Item>>
  {
    match row
    case None => None
    case Some(es) => Some(AsMap(es))
  }

  function MapRows(rows: seq<EntryRow>): (maps: seq<Option<map<Key, Item>>>)
    ensures |maps| == |rows|
  {
    seq(|rows|, r requires 0 <= r < |rows| => MapRow(rows[r]))
  }

  lemma RowsOfMaps(nonNulls: seq<bool>, lists: seq<Entries>)
    requires |lists| == CountTrue(nonNulls)
    ensures RowsOf(nonNulls, AsMaps(lists)) == MapRows(RowsOf(nonNulls, lists))
    ensures RowsDistinct(RowsOf(nonNulls, lists)) <==> NoneTwice(lists)
  {
    hide Rank, CountTrue, AsMap, NoKeyTwice;
    var rows, mapped := RowsOf(nonNulls, lists), RowsOf(nonNulls, AsMaps(lists));
    forall r | 0 <= r < |nonNulls| ensures mapped[r] == MapRows(rows)[r] {
      if nonNulls[r] { RankBound(nonNulls, r); }
    }
    if NoneTwice(lists) {
      forall r | 0 <= r < |rows| && rows[r].Some? ensures NoKeyTwice(rows[r].value) { RankBound(nonNulls, r); }
    }
    if RowsDistinct(rows) {
      forall d | 0 <= d < |lists| ensures NoKeyTwice(lists[d]) {
        var r := PositionOf(nonNulls, d);
        assert rows[r] == Some(lists[d]);
      }
    }
  }

  /** The streams fit each other exactly if no key is repeated, and then they stand for the rows. */
  lemma StoredRowsExact(nonNulls: seq<bool>, keys: seq<Key>, lists: seq<Entries>)
    requires |lists| == CountTrue(nonNulls) && ListsIn((set k | k in keys), lists) && AllDiffer(keys)
    ensures
      var s := Streams(nonNulls, ListTransposed(keys, lists));
      && (WellFormed(s) <==> RowsDistinct(RowsOf(nonNulls, lists)))
      && (WellFormed(s) ==> Rows(s) == MapRows(RowsOf(nonNulls, lists)))
  {
    hide Rank, CountTrue, Rows, Transposed, ListTransposed, FieldsFit, NoKeyTwice, RowsOf, MapRows, RowsDistinct;
    RowsOfMaps(nonNulls, lists);
    if NoneTwice(lists) {
      TransposedMaps(keys, lists);
      CoversMaps((set k | k in keys), lists);
      TransposedRows(nonNulls, keys, AsMaps(lists));
    } else {
      RepeatedBreaks(keys, lists, CountTrue(nonNulls));
    }
  }

  lemma RowsOfNext<T>(nonNulls: seq<bool>, items: seq<T>, row: Option<T>)
    requires |items| == CountTrue(nonNulls)
    ensures
      var n := nonNulls + [row.Some?];
      var m := if row.Some? then items + [row.value] else items;
      |m| == CountTrue(n) && RowsOf(n, m) == RowsOf(nonNulls, items) + [row]
  {
    hide Rank, CountTrue;
    var n := nonNulls + [row.Some?];
    var m := if row.Some? then items + [row.value] else items;
    RankAll(n);
    RankAll(nonNulls);
    RankNext(n, |nonNulls|);
    RankConcat(nonNulls, [row.Some?], |nonNulls|);
    var rows, expected := RowsOf(n, m), RowsOf(nonNulls, items) + [row];
    forall r | 0 <= r <= |nonNulls| ensures rows[r] == expected[r] {
      RankConcat(nonNulls, [row.Some?], r);
      if r < |nonNulls| && nonNulls[r] { RankBound(nonNulls, r); }
    }
  }
}
