/**
  How a level of encoding splits its rows into child streams, and why the split can be undone: runs,
  sparse indices, an alphabet with indices, a common value with the others, strings cut from a blob.
 */
module Derived {
  import opened Wrappers
  import opened BitMath
  import opened FixedBitArrays
  import opened Sequences
  import opened Format

  // ----- strings

  function Chars(v: Value): seq<Byte>
  {
    if v.Str? then v.chars else []
  }

  function Blob(values: seq<Value>): seq<Byte>
  {
    if values == [] then [] else Chars(values[0]) + Blob(values[1..])
  }

  function Lengths(values: seq<Value>): (r: seq<nat>)
    ensures |r| == |values|
  {
    seq<nat>(|values|, i requires 0 <= i < |values| => |Chars(values[i])|)
  }

  lemma {:induction false} BlobConcat(xs: seq<Value>, ys: seq<Value>)
    ensures Blob(xs + ys) == Blob(xs) + Blob(ys)
  {
    if xs == [] {
      assert xs + ys == ys;
    } else {
      assert (xs + ys)[1..] == xs[1..] + ys;
      BlobConcat(xs[1..], ys);
    }
  }

  lemma BlobNext(xs: seq<Value>, v: Value)
    ensures Blob(xs + [v]) == Blob(xs) + Chars(v)
  {
    BlobConcat(xs, [v]);
    assert Blob([v]) == Chars(v) + Blob([v][1..]);
  }

  lemma {:induction false} NoChars(values: seq<Value>)
    requires forall i :: 0 <= i < |values| ==> !values[i].Str?
    ensures Blob(values) == []
  {
    if values != [] { NoChars(values[1..]); }
  }

  lemma {:induction false} LengthsSum(values: seq<Value>)
    ensures Sum(Lengths(values)) == |Blob(values)|
  {
    if values != [] {
      LengthsSum(values[1..]);
      assert Lengths(values)[1..] == Lengths(values[1..]);
    }
  }

  /** The blob is cut back into the strings. */
  lemma {:induction false} CutBlob(values: seq<Value>)
    requires forall i :: 0 <= i < |values| ==> values[i].Str?
    ensures Sum(Lengths(values)) == |Blob(values)| && Cut(Blob(values), Lengths(values)) == values
  {
    LengthsSum(values);
    if values != [] {
      CutBlob(values[1..]);
      assert Lengths(values)[1..] == Lengths(values[1..]);
      assert Blob(values)[|Chars(values[0])|..] == Blob(values[1..]);
      assert Blob(values)[..|Chars(values[0])|] == Chars(values[0]);
    }
  }

  lemma LengthBound(values: seq<Value>, i: nat)
    requires i < |values|
    ensures Lengths(values)[i] <= |Blob(values)|
  {
    LengthsSum(values);
    SumNext(Lengths(values), i);
  }

  method SplitStrings(values: seq<Value>) returns (lengths: seq<nat>, blob: seq<Byte>)
    ensures lengths == Lengths(values) && blob == Blob(values)
  {
    lengths, blob := [], [];
    for i := 0 to |values|
      invariant lengths == Lengths(values[..i]) && blob == Blob(values[..i])
    {
      assert values[..i + 1] == values[..i] + [values[i]];
      BlobNext(values[..i], values[i]);
      lengths := lengths + [|Chars(values[i])|];
      blob := blob + Chars(values[i]);
    }
    assert values[..|values|] == values;
  }

  // ----- numbers and bits laid out trivially

  function NumberBytes(values: seq<Value>, size: nat): (b: seq<Byte>)
    ensures |b| == |values| * size
  {
    if values == [] then []
    else NextNumber(|values|, size); LeBytes(Nat(values[0]), size) + NumberBytes(values[1..], size)
  }

  lemma {:induction false} NumbersOfBytes(values: seq<Value>, size: nat)
    requires forall i :: 0 <= i < |values| ==> values[i].Num? && Fits(values[i].n, 8 * size)
    ensures Numbers(NumberBytes(values, size), size, |values|) == values
  {
    if values != [] {
      NextNumber(|values|, size);
      var b := NumberBytes(values, size);
      LeBytesRead(values[0].n, size);
      assert b[..size] == LeBytes(values[0].n, size) && b[size..] == NumberBytes(values[1..], size);
      NumbersOfBytes(values[1..], size);
    }
  }

  /** The loop of `TrivialEncoding<bool>::encode`. */
  method PackFlags(values: seq<Value>) returns (bitmap: seq<Byte>)
    ensures |bitmap| == BufferSize(|values|, 1)
    ensures forall i :: 0 <= i < |values| ==> BufBit(bitmap, i) == IsSet(values[i])
  {
    var buffer := new Byte[BufferSize(|values|, 1)](_ => 0);
    forall k: nat ensures !BufBit(buffer[..], k) { ZeroBuffer(buffer[..], k); }
    for i := 0 to |values|
      invariant forall k: nat :: BufBit(buffer[..], k) == (k < i && IsSet(values[k]))
    {
      if IsSet(values[i]) { SetBit(i, buffer); }
    }
    bitmap := buffer[..];
  }

  // ----- runs

  datatype Runs = Runs(lengths: seq<nat>, values: seq<Value>)

  function RunsOf(values: seq<Value>): (r: Runs)
    ensures |r.lengths| == |r.values| <= |values|
    ensures values != [] ==> r.values != [] && r.values[|r.values| - 1] == values[|values| - 1]
  {
    if values == [] then Runs([], []) else AddRow(RunsOf(values[..|values| - 1]), values[|values| - 1])
  }

  /** A row lengthens the last run or starts a new one. */
  function AddRow(runs: Runs, x: Value): (r: Runs)
    requires |runs.lengths| == |runs.values|
    ensures |r.lengths| == |r.values| <= |runs.values| + 1
    ensures r.values != [] && r.values[|r.values| - 1] == x
  {
    var k := |runs.values| - 1;
    if k >= 0 && runs.values[k] == x then Runs(runs.lengths[k := runs.lengths[k] + 1], runs.values)
    else Runs(runs.lengths + [1], runs.values + [x])
  }

  /** `computeRuns` */
  method ComputeRuns(data: seq<Value>) returns (runLengths: seq<nat>, runValues: seq<Value>)
    ensures Runs(runLengths, runValues) == RunsOf(data)
  {
    hide RunsOf;
    runLengths, runValues := [], [];
    RunsNone(data);
    if data == [] { return; }
    var runLength: nat := 1;
    var last := data[0];
    RunsNext(data, 0);
    for i := 1 to |data|
      invariant Runs(runLengths + [runLength], runValues + [last]) == RunsOf(data[..i])
    {
      RunsNext(data, i);
      if data[i] == last {
        runLength := runLength + 1;
      } else {
        runLengths := runLengths + [runLength];
        runValues := runValues + [last];
        last := data[i];
        runLength := 1;
      }
    }
    assert data[..|data|] == data;
    runLengths := runLengths + [runLength];
    runValues := runValues + [last];
  }

  lemma RunsNone(data: seq<Value>)
    ensures RunsOf(data[..0]) == Runs([], [])
  {
  }

  lemma RunsNext(data: seq<Value>, i: nat)
    requires i < |data|
    ensures RunsOf(data[..i + 1]) == AddRow(RunsOf(data[..i]), data[i])
  {
    assert data[..i + 1][..i] == data[..i];
  }

  lemma {:induction false} ExpandConcat(l: seq<nat>, v: seq<Value>, n: nat, x: Value)
    requires |l| == |v|
    ensures Expand(l + [n], v + [x]) == Expand(l, v) + Repeat(x, n)
  {
    if l == [] {
      assert [n][1..] == [] && [x][1..] == [];
      assert l + [n] == [n] && v + [x] == [x];
      assert Expand([n], [x]) == Repeat(x, n) + Expand([], []);
    } else {
      assert (l + [n])[1..] == l[1..] + [n] && (v + [x])[1..] == v[1..] + [x];
      ExpandConcat(l[1..], v[1..], n, x);
    }
  }

  lemma GrowLast(l: seq<nat>, v: seq<Value>)
    requires |l| == |v| > 0
    ensures Expand(l[|l| - 1 := l[|l| - 1] + 1], v) == Expand(l, v) + [v[|v| - 1]]
  {
    hide Expand;
    var k := |l| - 1;
    var m, x := l[k], v[k];
    assert l == l[..k] + [m] && v == v[..k] + [x] && l[k := m + 1] == l[..k] + [m + 1];
    ExpandConcat(l[..k], v[..k], m, x);
    ExpandConcat(l[..k], v[..k], m + 1, x);
    assert Repeat(x, m + 1) == Repeat(x, m) + [x];
  }

  lemma AddRowExpands(runs: Runs, x: Value)
    requires |runs.lengths| == |runs.values|
    ensures Expand(AddRow(runs, x).lengths, AddRow(runs, x).values) == Expand(runs.lengths, runs.values) + [x]
  {
    hide Expand;
    if runs.values != [] && runs.values[|runs.values| - 1] == x {
      GrowLast(runs.lengths, runs.values);
    } else {
      ExpandConcat(runs.lengths, runs.values, 1, x);
      assert Repeat(x, 1) == [x];
    }
  }

  /** Writing the runs out restores the rows. */
  lemma {:induction false} RunsExpand(values: seq<Value>)
    ensures Expand(RunsOf(values).lengths, RunsOf(values).values) == values
  {
    hide AddRow;
    if values != [] {
      var n := |values| - 1;
      RunsExpand(values[..n]);
      AddRowExpands(RunsOf(values[..n]), values[n]);
      assert values == values[..n] + [values[n]];
    }
  }

  /** Runs are not empty, and neighbours differ: there is no shorter way to write the rows as runs. */
  lemma {:induction false} RunsMaximal(values: seq<Value>)
    ensures forall i :: 0 <= i < |RunsOf(values).lengths| ==> 0 < RunsOf(values).lengths[i]
    ensures forall i :: 0 < i < |RunsOf(values).values| ==> RunsOf(values).values[i] != RunsOf(values).values[i - 1]
  {
    if values != [] { RunsMaximal(values[..|values| - 1]); }
  }

  lemma RunLengthBound(values: seq<Value>, i: nat)
    requires i < |RunsOf(values).lengths|
    ensures RunsOf(values).lengths[i] <= |values|
  {
    RunsExpand(values);
    SumNext(RunsOf(values).lengths, i);
  }

  lemma {:induction false} RunValuesSubset(values: seq<Value>)
    ensures |Blob(RunsOf(values).values)| <= |Blob(values)|
    ensures forall i :: 0 <= i < |RunsOf(values).values| ==> RunsOf(values).values[i] in values
  {
    if values != [] {
      var n := |values| - 1;
      RunValuesSubset(values[..n]);
      assert values == values[..n] + [values[n]];
      BlobNext(values[..n], values[n]);
      BlobNext(RunsOf(values[..n]).values, values[n]);
    }
  }

  /** The run values of a bool column need not be stored. */
  lemma {:induction false} FlagsAlternate(runs: seq<Value>)
    requires runs != [] && forall i :: 0 <= i < |runs| ==> runs[i].Flag?
    requires forall i :: 0 < i < |runs| ==> runs[i] != runs[i - 1]
    ensures runs == Alternating(runs[0].b, |runs|)
  {
    if |runs| > 1 {
      FlagsAlternate(runs[..|runs| - 1]);
      assert runs[..|runs| - 1][|runs| - 2] == runs[|runs| - 2];
    }
  }

  // ----- sparse indices

  /** The polarity of `SparseBoolEncoding::encode`. */
  predicate SparseValue(flags: seq<bool>)
  {
    CountTrue(flags) <= |flags| / 2
  }

  function PositionsOf(flags: seq<bool>, value: bool): (r: seq<nat>)
    ensures |r| <= |flags|
  {
    if flags == [] then []
    else
      var n := |flags| - 1;
      PositionsOf(flags[..n], value) + if flags[n] == value then [n] else []
  }

  function SparseIndices(flags: seq<bool>): (r: seq<nat>)
    ensures |r| <= |flags|
  {
    PositionsOf(flags, SparseValue(flags))
  }

  lemma {:induction false} PositionsExact(flags: seq<bool>, value: bool)
    ensures forall i, j :: 0 <= i < j < |PositionsOf(flags, value)| ==>
      PositionsOf(flags, value)[i] < PositionsOf(flags, value)[j]
    ensures forall p: nat :: p in PositionsOf(flags, value) <==> p < |flags| && flags[p] == value
    ensures forall i :: 0 <= i < |PositionsOf(flags, value)| ==> PositionsOf(flags, value)[i] < |flags|
  {
    if flags != [] {
      var n := |flags| - 1;
      PositionsExact(flags[..n], value);
      var before := PositionsOf(flags[..n], value);
      forall p: nat ensures p in PositionsOf(flags, value) <==> p < |flags| && flags[p] == value {
        assert p in before <==> p < n && flags[..n][p] == value;
      }
    }
  }

  lemma SparseRestores(values: seq<Value>)
    requires forall i :: 0 <= i < |values| ==> values[i].Flag?
    ensures
      var indices := SparseIndices(Flags(values)) + [|values|];
      IndexList(indices, |values|) && Sparse(SparseValue(Flags(values)), indices, |values|) == values
  {
    var flags := Flags(values);
    var positions := SparseIndices(flags);
    var indices := positions + [|values|];
    PositionsExact(flags, SparseValue(flags));
    forall p | 0 <= p < |values|
      ensures Sparse(SparseValue(flags), indices, |values|)[p] == values[p]
    {
      assert p in indices <==> p in positions;
    }
  }

  method FindSparse(values: seq<Value>, sparseValue: bool) returns (indices: seq<nat>)
    ensures indices == PositionsOf(Flags(values), sparseValue)
  {
    indices := [];
    for i := 0 to |values|
      invariant indices == PositionsOf(Flags(values)[..i], sparseValue)
    {
      assert Flags(values)[..i + 1][..i] == Flags(values)[..i];
      if IsSet(values[i]) == sparseValue {
        indices := indices + [i];
      }
    }
    assert Flags(values)[..|values|] == Flags(values);
  }

  // ----- alphabets

  /** Each value once. */
  ghost predicate IsOrder(order: seq<Value>, values: seq<Value>)
  {
    && (forall i, j :: 0 <= i < j < |order| ==> order[i] != order[j])
    && (forall v :: v in order <==> v in values)
  }

  function IndexOf(alphabet: seq<Value>, v: Value): (k: nat)
    ensures v in alphabet ==> k < |alphabet| && alphabet[k] == v
  {
    if alphabet == [] || alphabet[0] == v then 0 else 1 + IndexOf(alphabet[1..], v)
  }

  function IndicesIn(alphabet: seq<Value>, values: seq<Value>): (r: seq<nat>)
    ensures |r| == |values|
  {
    seq<nat>(|values|, i requires 0 <= i < |values| => IndexOf(alphabet, values[i]))
  }

  lemma LookupRestores(alphabet: seq<Value>, values: seq<Value>)
    requires IsOrder(alphabet, values)
    ensures InRange(IndicesIn(alphabet, values), |alphabet|)
    ensures Lookup(alphabet, IndicesIn(alphabet, values)) == values
  {
    forall i | 0 <= i < |values| ensures IndexOf(alphabet, values[i]) < |alphabet| { assert values[i] in alphabet; }
  }

  /** The alphabet mapping of `DictionaryEncoding::encode`, and the indices it gives. */
  method MapToIndices(alphabet: seq<Value>, values: seq<Value>) returns (indices: seq<nat>)
    requires IsOrder(alphabet, values)
    ensures indices == IndicesIn(alphabet, values)
  {
    var mapping: map<Value, nat> := map[];
    for i := 0 to |alphabet|
      invariant forall j :: 0 <= j < i ==> alphabet[j] in mapping && mapping[alphabet[j]] == j
    {
      mapping := mapping[alphabet[i] := i];
    }
    indices := [];
    for i := 0 to |values|
      invariant indices == IndicesIn(alphabet, values)[..i]
    {
      assert values[i] in alphabet;
      assert alphabet[IndexOf(alphabet, values[i])] == values[i];
      indices := indices + [mapping[values[i]]];
    }
  }

  lemma {:induction false} DistinctSubset(order: seq<Value>, values: seq<Value>)
    requires forall i, j :: 0 <= i < j < |order| ==> order[i] != order[j]
    requires forall v :: v in order ==> v in values
    ensures |Blob(order)| <= |Blob(values)| && |order| <= |values|
    decreases |order|
  {
    if order != [] {
      var x := order[0];
      assert x in order;
      var k :| 0 <= k < |values| && values[k] == x;
      var others := values[..k] + values[k + 1..];
      forall v | v in order[1..] ensures v in others {
        assert v in order && v != x;
        var i :| 0 <= i < |values| && values[i] == v;
        assert v == others[if i < k then i else i - 1];
      }
      DistinctSubset(order[1..], others);
      assert values == values[..k] + [x] + values[k + 1..];
      BlobNext(values[..k], x);
      BlobConcat(values[..k] + [x], values[k + 1..]);
      BlobConcat(values[..k], values[k + 1..]);
    }
  }

  // ----- a common value and the others

  /** `std::max_element` over the unique counts: the first of the most frequent values. */
  function MostCommon(order: seq<Value>, values: seq<Value>): (common: Value)
    requires order != []
    ensures common in order
  {
    var n := |order| - 1;
    if n == 0 then order[0]
    else
      var best := MostCommon(order[..n], values);
      if multiset(values)[best] < multiset(values)[order[n]] then order[n] else best
  }

  method FindMostCommon(order: seq<Value>, values: seq<Value>) returns (common: Value)
    requires order != []
    ensures common == MostCommon(order, values)
  {
    common := order[0];
    assert order[..1] == [order[0]];
    for i := 1 to |order|
      invariant common == MostCommon(order[..i], values)
    {
      assert order[..i + 1][..i] == order[..i];
      if multiset(values)[common] < multiset(values)[order[i]] { common := order[i]; }
    }
    assert order[..|order|] == order;
  }

  lemma {:induction false} MostCommonIsMaximal(order: seq<Value>, values: seq<Value>)
    requires order != []
    ensures forall v :: v in order ==> multiset(values)[v] <= multiset(values)[MostCommon(order, values)]
  {
    var n := |order| - 1;
    if n > 0 {
      MostCommonIsMaximal(order[..n], values);
      assert order == order[..n] + [order[n]];
    }
  }

  /** No value occurs more often, and none before it as often. */
  ghost predicate IsMostCommon(order: seq<Value>, values: seq<Value>, common: Value)
  {
    exists k :: 0 <= k < |order| && order[k] == common && MostFrequent(order, values, k)
  }

  predicate MostFrequent(order: seq<Value>, values: seq<Value>, k: nat)
    requires k < |order|
  {
    forall j :: 0 <= j < |order| ==>
      && multiset(values)[order[j]] <= multiset(values)[order[k]]
      && (j < k ==> multiset(values)[order[j]] < multiset(values)[order[k]])
  }

  lemma {:induction false} MostCommonIsFirst(order: seq<Value>, values: seq<Value>)
    requires order != []
    ensures IsMostCommon(order, values, MostCommon(order, values))
  {
    var n := |order| - 1;
    if n == 0 {
      assert MostFrequent(order, values, 0);
    } else {
      MostCommonIsFirst(order[..n], values);
      var best := MostCommon(order[..n], values);
      var k :| 0 <= k < n && order[..n][k] == best && MostFrequent(order[..n], values, k);
      forall j | 0 <= j < n
        ensures multiset(values)[order[j]] <= multiset(values)[order[k]]
        ensures j < k ==> multiset(values)[order[j]] < multiset(values)[order[k]]
      {
        assert order[..n][j] == order[j] && order[..n][k] == order[k];
      }
      if multiset(values)[best] < multiset(values)[order[n]] {
        assert MostFrequent(order, values, n);
      } else {
        assert MostFrequent(order, values, k);
      }
    }
  }

  function Marks(values: seq<Value>, common: Value): (r: seq<Value>)
    ensures |r| == |values|
  {
    seq(|values|, i requires 0 <= i < |values| => Flag(values[i] == common))
  }

  function Others(values: seq<Value>, common: Value): (r: seq<Value>)
    ensures |r| <= |values|
  {
    if values == [] then []
    else if values[0] == common then Others(values[1..], common)
    else [values[0]] + Others(values[1..], common)
  }

  lemma {:induction false} OthersConcat(xs: seq<Value>, ys: seq<Value>, common: Value)
    ensures Others(xs + ys, common) == Others(xs, common) + Others(ys, common)
  {
    if xs == [] {
      assert xs + ys == ys;
    } else {
      assert (xs + ys)[1..] == xs[1..] + ys;
      OthersConcat(xs[1..], ys, common);
    }
  }

  method SplitOthers(values: seq<Value>, common: Value) returns (isCommon: seq<Value>, others: seq<Value>)
    ensures isCommon == Marks(values, common) && others == Others(values, common)
  {
    isCommon := Repeat(Flag(true), |values|);
    others := [];
    for i := 0 to |values|
      invariant |isCommon| == |values| && others == Others(values[..i], common)
      invariant forall j :: 0 <= j < |values| ==> isCommon[j] == Flag(i <= j || values[j] == common)
    {
      assert values[..i + 1] == values[..i] + [values[i]];
      OthersConcat(values[..i], [values[i]], common);
      assert [values[i]][1..] == [];
      if values[i] != common {
        isCommon := isCommon[i := Flag(false)];
        others := others + [values[i]];
      }
    }
    assert values[..|values|] == values;
  }

  lemma {:induction false} OthersOf(values: seq<Value>, common: Value)
    ensures |Others(values, common)| == |values| - CountTrue(Flags(Marks(values, common)))
    ensures forall k :: 0 <= k < |values| && values[k] != common ==>
      && k - Rank(Flags(Marks(values, common)), k) < |Others(values, common)|
      && Others(values, common)[k - Rank(Flags(Marks(values, common)), k)] == values[k]
  {
    hide CountTrue, Rank;
    var flags := Flags(Marks(values, common));
    if values == [] {
      RankAll(flags);
    } else {
      var rest := Flags(Marks(values[1..], common));
      assert flags[1..] == rest;
      OthersOf(values[1..], common);
      CountFirst(flags);
      forall k | 0 <= k < |values| && values[k] != common
        ensures k - Rank(flags, k) < |Others(values, common)| && Others(values, common)[k - Rank(flags, k)] == values[k]
      {
        OtherRow(values, common, k);
      }
    }
  }

  lemma OtherRow(values: seq<Value>, common: Value, k: nat)
    requires k < |values| && values[k] != common
    requires |Others(values, common)| == |values| - CountTrue(Flags(Marks(values, common)))
    requires k > 0 ==>
      && k - 1 - Rank(Flags(Marks(values[1..], common)), k - 1) < |Others(values[1..], common)|
      && Others(values[1..], common)[k - 1 - Rank(Flags(Marks(values[1..], common)), k - 1)] == values[k]
    ensures k - Rank(Flags(Marks(values, common)), k) < |Others(values, common)|
    ensures Others(values, common)[k - Rank(Flags(Marks(values, common)), k)] == values[k]
  {
    hide CountTrue, Rank;
    var flags := Flags(Marks(values, common));
    RankBounds(flags, k);
    RankAll(flags);
    if k > 0 {
      RankInSlice(flags, 1, |flags|, k - 1);
      assert flags[1..|flags|] == Flags(Marks(values[1..], common));
      RankNext(flags, 0);
    }
  }

  lemma MergeRestores(values: seq<Value>, common: Value)
    ensures |Others(values, common)| == |values| - CountTrue(Flags(Marks(values, common)))
    ensures Merge(Flags(Marks(values, common)), Repeat(common, CountTrue(Flags(Marks(values, common)))),
      Others(values, common)) == values
  {
    hide CountTrue, Rank, Merge, Others;
    var flags, others := Flags(Marks(values, common)), Others(values, common);
    OthersOf(values, common);
    forall k | 0 <= k < |values| ensures Merge(flags, Repeat(common, CountTrue(flags)), others)[k] == values[k] {
      MergeAt(flags, Repeat(common, CountTrue(flags)), others, k);
    }
  }

  lemma {:induction false} OthersSubset(values: seq<Value>, common: Value)
    ensures |Blob(Others(values, common))| <= |Blob(values)|
    ensures forall v :: v in Others(values, common) ==> v in values
  {
    if values != [] { OthersSubset(values[1..], common); }
  }

  // ----- extremes

  method MinMax(values: seq<nat>) returns (min: nat, max: nat)
    ensures values == [] ==> min == max == 0
    ensures values != [] ==> min in values && max in values
    ensures forall i :: 0 <= i < |values| ==> min <= values[i] <= max
  {
    if values == [] { return 0, 0; }
    min, max := values[0], values[0];
    for i := 1 to |values|
      invariant min in values && max in values
      invariant forall j :: 0 <= j < i ==> min <= values[j] <= max
    {
      if values[i] < min { min := values[i]; }
      if values[i] >= max { max := values[i]; }
    }
  }
}
