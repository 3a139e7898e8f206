/**
  Choosing the encodings: every level picks the cheapest candidate that can encode its rows, and the levels
  below choose among the others.  The choice comes to an end, and what is chosen can be encoded.
 */
module Selection {
  import opened Wrappers
  import opened BitMath
  import opened Sequences
  import opened Format
  import opened Layouts
  import opened Derived
  import opened Encoder

  datatype Candidate = Candidate(encoding: Byte, readFactor: real)

  /** What the choice depends on besides the rows: unique values, size estimates, and the compression asked for. */
  datatype Settings = Settings(c: Codec, estimate: (Byte, DataType, seq<Value>) -> nat, compression: Byte)

  /** The largest float. */
  const MAX_COST: real := 340282346638528859811704183484516925440.0

  /** Whether `estimateSize` has an estimate at all. */
  predicate Estimable(c: Codec, encoding: Byte, dt: DataType, values: seq<Value>)
  {
    match encoding
    case 9 => |c.order(values)| == 1
    case 0 | 1 => true
    case 2 | 10 => dt != Bool
    case 3 => dt.IsNumeric()
    case 6 => dt == Bool
    case 7 => dt.Size() >= 4
    case _ => false
  }

  /** Trivial all the way down, which encodes rows of any type. */
  const PLAINLY := Layout(TRIVIAL, 0, [Some(Layout(TRIVIAL, 0, []))])

  /** An encoding has an estimate exactly if, with some choice of nested encodings, it can encode the rows. */
  lemma EstimableExactly(c: Codec, encoding: Byte, dt: DataType, values: seq<Value>)
    requires Lawful(c) && WellTyped(dt, values) && values != []
    ensures
      Estimable(c, encoding, dt, values) <==>
      exists plan: Layout :: plan.encoding == encoding && Compatible(c, plan, dt, values)
  {
    hide CompatibleChild;
    var plan := Layout(encoding, 0, [Some(PLAINLY), Some(PLAINLY)]);
    if Estimable(c, encoding, dt, values) {
      assert IsOrder(c.order(values), values) && values[0] in c.order(values);
      forall k, t, rows | 0 <= k < 2 ensures CompatibleChild(c, plan, k, t, rows) {
        PlainlyCompatible(c, plan, k, t, rows);
      }
      assert Compatible(c, plan, dt, values);
    }
  }

  lemma PlainlyCompatible(c: Codec, plan: Layout, k: nat, dt: DataType, values: seq<Value>)
    requires k < |plan.children| && plan.children[k] == Some(PLAINLY)
    ensures CompatibleChild(c, plan, k, dt, values)
  {
    assert Compatible(c, Layout(TRIVIAL, 0, []), Uint32, Nums(Lengths(values)));
    assert CompatibleChild(c, PLAINLY, 0, Uint32, Nums(Lengths(values)));
    assert Compatible(c, PLAINLY, dt, values);
  }

  function Cost(s: Settings, candidate: Candidate, dt: DataType, values: seq<Value>): real
  {
    s.estimate(candidate.encoding, dt, values) as real * candidate.readFactor
  }

  /** The choice among the first `n` candidates, and its cost. */
  function Cheapest(s: Settings, list: seq<Candidate>, dt: DataType, values: seq<Value>, n: nat): (Byte, real)
    requires n <= |list|
  {
    if n == 0 then (TRIVIAL, MAX_COST)
    else
      var best := Cheapest(s, list, dt, values, n - 1);
      var next := list[n - 1];
      if Estimable(s.c, next.encoding, dt, values) && Cost(s, next, dt, values) < best.1
        then (next.encoding, Cost(s, next, dt, values)) else best
  }

  function Selected(s: Settings, list: seq<Candidate>, dt: DataType, values: seq<Value>): Byte
  {
    if values == [] then TRIVIAL else Cheapest(s, list, dt, values, |list|).0
  }

  /** Candidate `i` has an estimate below the maximum, none is cheaper, and none before it is as cheap. */
  predicate IsCheapest(s: Settings, list: seq<Candidate>, dt: DataType, values: seq<Value>, i: nat)
    requires i < |list|
  {
    var least := s.estimate(list[i].encoding, dt, values) as real * list[i].readFactor;
    && Estimable(s.c, list[i].encoding, dt, values) && least < MAX_COST
    && forall j :: 0 <= j < |list| && Estimable(s.c, list[j].encoding, dt, values) ==>
      var cost := s.estimate(list[j].encoding, dt, values) as real * list[j].readFactor;
      least <= cost && (j < i ==> least < cost)
  }

  /** The encoding of the first of the cheapest candidates, or Trivial if there is none or nothing to encode. */
  ghost predicate IsBest(s: Settings, list: seq<Candidate>, dt: DataType, values: seq<Value>, encoding: Byte)
  {
    if values != [] && exists i :: 0 <= i < |list| && IsCheapest(s, list, dt, values, i) then
      exists i :: 0 <= i < |list| && IsCheapest(s, list, dt, values, i) && encoding == list[i].encoding
    else encoding == TRIVIAL
  }

  /** `select` */
  method Select(s: Settings, list: seq<Candidate>, dt: DataType, values: seq<Value>) returns (selectedEncoding: Byte)
    ensures IsBest(s, list, dt, values, selectedEncoding)
    ensures selectedEncoding == Selected(s, list, dt, values)
  {
    hide Estimable, Cost;
    SelectedIsBest(s, list, dt, values);
    if values == [] { return TRIVIAL; }
    var minCost := MAX_COST;
    selectedEncoding := TRIVIAL;
    for i := 0 to |list|
      invariant (selectedEncoding, minCost) == Cheapest(s, list, dt, values, i)
    {
      if !Estimable(s.c, list[i].encoding, dt, values) { continue; }
      var cost := Cost(s, list[i], dt, values);
      if cost < minCost {
        minCost := cost;
        selectedEncoding := list[i].encoding;
      }
    }
  }

  /**
    No candidate with an estimate is cheaper, of equally cheap ones the first is taken, and without any it is
    Trivial.
   */
  lemma {:induction false} CheapestIsMinimal(s: Settings, list: seq<Candidate>, dt: DataType, values: seq<Value>,
        n: nat)
    requires n <= |list|
    ensures
      var best := Cheapest(s, list, dt, values, n);
      && (forall j :: 0 <= j < n && Estimable(s.c, list[j].encoding, dt, values) ==>
        best.1 <= Cost(s, list[j], dt, values))
      && (best == (TRIVIAL, MAX_COST) || exists i :: 0 <= i < n && IsChosen(s, list, dt, values, i, best))
  {
    hide Estimable, Cost;
    if n > 0 {
      CheapestIsMinimal(s, list, dt, values, n - 1);
      var before, best := Cheapest(s, list, dt, values, n - 1), Cheapest(s, list, dt, values, n);
      if best != before { assert IsChosen(s, list, dt, values, n - 1, best); }
    }
  }

  ghost predicate IsChosen(s: Settings, list: seq<Candidate>, dt: DataType, values: seq<Value>, i: nat,
        best: (Byte, real))
    requires i < |list|
  {
    && list[i].encoding == best.0 && Estimable(s.c, best.0, dt, values) &&
      Cost(s, list[i], dt, values) == best.1 < MAX_COST
    && forall j :: 0 <= j < i && Estimable(s.c, list[j].encoding, dt, values) ==> best.1 < Cost(s, list[j], dt, values)
  }

  lemma SelectedIsBest(s: Settings, list: seq<Candidate>, dt: DataType, values: seq<Value>)
    ensures IsBest(s, list, dt, values, Selected(s, list, dt, values))
  {
    hide Estimable, Cost, IsChosen, IsCheapest;
    if values != [] {
      CheapestIsMinimal(s, list, dt, values, |list|);
      var best := Cheapest(s, list, dt, values, |list|);
      if best != (TRIVIAL, MAX_COST) {
        var i :| 0 <= i < |list| && IsChosen(s, list, dt, values, i, best);
        ChosenIsCheapest(s, list, dt, values, i, best);
      } else {
        forall i | 0 <= i < |list| ensures !IsCheapest(s, list, dt, values, i) { NoneCheapest(s, list, dt, values, i); }
      }
    }
  }

  lemma ChosenIsCheapest(s: Settings, list: seq<Candidate>, dt: DataType, values: seq<Value>, i: nat,
        best: (Byte, real))
    requires i < |list| && IsChosen(s, list, dt, values, i, best)
    requires forall j :: 0 <= j < |list| && Estimable(s.c, list[j].encoding, dt, values) ==>
      best.1 <= Cost(s, list[j], dt, values)
    ensures IsCheapest(s, list, dt, values, i) && list[i].encoding == best.0
  {
    hide Estimable;
  }

  lemma NoneCheapest(s: Settings, list: seq<Candidate>, dt: DataType, values: seq<Value>, i: nat)
    requires i < |list|
    requires forall j :: 0 <= j < |list| && Estimable(s.c, list[j].encoding, dt, values) ==>
      MAX_COST <= Cost(s, list[j], dt, values)
    ensures !IsCheapest(s, list, dt, values, i)
  {
    hide Estimable;
    assert Estimable(s.c, list[i].encoding, dt, values) ==> MAX_COST <= Cost(s, list[i], dt, values);
  }

  // ----- the candidates of the levels below

  predicate Lists(list: seq<Candidate>, encoding: Byte)
  {
    exists i :: 0 <= i < |list| && list[i].encoding == encoding
  }

  function Filtered(list: seq<Candidate>, encoding: Byte): (r: seq<Candidate>)
    ensures |r| <= |list| && (Lists(list, encoding) ==> |r| < |list|)
    ensures forall e :: Lists(r, e) <==> Lists(list, e) && e != encoding
  {
    if list == [] then []
    else
      var n := |list| - 1;
      var rest := Filtered(list[..n], encoding);
      FilteredRest(list, encoding, rest);
      if list[n].encoding != encoding then rest + [list[n]] else rest
  }

  lemma FilteredRest(list: seq<Candidate>, encoding: Byte, rest: seq<Candidate>)
    requires list != [] && |rest| < |list| && (Lists(list[..|list| - 1], encoding) ==> |rest| < |list| - 1)
    requires forall e :: Lists(rest, e) <==> Lists(list[..|list| - 1], e) && e != encoding
    ensures
      var n := |list| - 1;
      var r := if list[n].encoding != encoding then rest + [list[n]] else rest;
      && (forall e :: Lists(r, e) <==> Lists(list, e) && e != encoding)
      && |r| <= |list| && (Lists(list, encoding) ==> |r| < |list|)
  {
    hide Lists;
    FilteredLast(list, encoding, rest);
    var n := |list| - 1;
    var r := if list[n].encoding != encoding then rest + [list[n]] else rest;
    forall e: Byte ensures Lists(r, e) <==> Lists(list, e) && e != encoding {
      assert Lists(list, e) <==> Lists(list[..n], e) || list[n].encoding == e;
      assert Lists(rest, e) <==> Lists(list[..n], e) && e != encoding;
      assert Lists(rest + [list[n]], e) <==> Lists(rest, e) || list[n].encoding == e;
    }
  }

  lemma FilteredLast(list: seq<Candidate>, encoding: Byte, rest: seq<Candidate>)
    requires list != []
    ensures forall e :: Lists(list, e) <==> Lists(list[..|list| - 1], e) || list[|list| - 1].encoding == e
    ensures forall e :: Lists(rest + [list[|list| - 1]], e) <==> Lists(rest, e) || list[|list| - 1].encoding == e
  {
    var n, last := |list| - 1, list[|list| - 1];
    var more := rest + [last];
    forall e ensures Lists(list, e) <==> Lists(list[..n], e) || last.encoding == e {
      if Lists(list[..n], e) {
        var i :| 0 <= i < n && list[..n][i].encoding == e;
        assert list[i].encoding == e;
      }
      if Lists(list, e) && last.encoding != e {
        var i :| 0 <= i <= n && list[i].encoding == e;
        assert list[..n][i].encoding == e;
      }
    }
    forall e ensures Lists(more, e) <==> Lists(rest, e) || last.encoding == e {
      assert more[|rest|] == last;
      if Lists(rest, e) {
        var i :| 0 <= i < |rest| && rest[i].encoding == e;
        assert more[i].encoding == e;
      }
    }
  }

  /** The candidates are the same, with their factors, except for those of the encoding. */
  lemma {:induction false} FilteredExact(list: seq<Candidate>, encoding: Byte)
    ensures forall c :: multiset(Filtered(list, encoding))[c] == if c.encoding == encoding then 0 else multiset(list)[c]
  {
    if list != [] {
      var n := |list| - 1;
      FilteredExact(list[..n], encoding);
      assert list == list[..n] + [list[n]];
    }
  }

  /** `createImpl`.  It reserves room for one candidate less than there are, which fails if there are none. */
  method CreatePolicy(list: seq<Candidate>, encodingType: Byte) returns (r: Result<seq<Candidate>>)
    ensures r == if list == [] then Error else Ok(Filtered(list, encodingType))
  {
    if list == [] { return Error; }
    var filtered: seq<Candidate> := [];
    for i := 0 to |list|
      invariant filtered == Filtered(list[..i], encodingType)
    {
      assert list[..i + 1][..i] == list[..i];
      if list[i].encoding != encodingType { filtered := filtered + [list[i]]; }
    }
    assert list[..|list|] == list;
    r := Ok(filtered);
  }

  // ----- the levels

  /** The streams that an encoding nests, with their types. */
  function ChildStreams(c: Codec, encoding: Byte, dt: DataType, values: seq<Value>): (r: seq<(DataType, seq<Value>)>)
    ensures forall i :: 0 <= i < |r| && r[i].0 == String ==> dt == String && NestsStrings(encoding)
    ensures encoding == TRIVIAL ==> (r != [] <==> dt == String)
  {
    match encoding
    case 0 => if dt == String then [(Uint32, Nums(Lengths(values)))] else []
    case 1 =>
      if dt == Bool then [(Uint32, Nums(RunsOf(values).lengths))]
      else [(Uint32, Nums(RunsOf(values).lengths)), (dt.Physical(), RunsOf(values).values)]
    case 2 => [(dt.Physical(), c.order(values)), (Uint32, Nums(IndicesIn(c.order(values), values)))]
    case 6 => [(Uint32, Nums(SparseIndices(Flags(values)) + [|values|]))]
    case 10 =>
      if c.order(values) == [] then []
      else
        var common := MostCommon(c.order(values), values);
        [(Bool, Marks(values, common)), (dt.Physical(), Others(values, common))]
    case _ => []
  }

  /** The encodings whose nested streams may be strings again. */
  predicate NestsStrings(encoding: Byte)
  {
    encoding == RLE || encoding == DICTIONARY || encoding == MAINLY_CONSTANT
  }

  /** The choice is a candidate, unless it is Trivial by default. */
  lemma SelectedListed(s: Settings, list: seq<Candidate>, dt: DataType, values: seq<Value>)
    ensures
      var e := Selected(s, list, dt, values);
      e == TRIVIAL || (values != [] && Lists(list, e) && Estimable(s.c, e, dt, values))
  {
    hide Estimable, Cost;
    CheapestIsMinimal(s, list, dt, values, |list|);
  }

  /** All choices, all the way down.  Either a candidate goes, or the lengths of strings are no strings. */
  function Plan(s: Settings, list: seq<Candidate>, dt: DataType, values: seq<Value>): (plan: Layout)
    decreases |list|, if dt == String then 1 else 0
  {
    var e := Selected(s, list, dt, values);
    var children := ChildStreams(s.c, e, dt, values);
    SelectedListed(s, list, dt, values);
    Layout(e, s.compression, seq(|children|, i requires 0 <= i < |children| =>
      Some(Plan(s, Filtered(list, e), children[i].0, children[i].1))))
  }

  /** A level asks an empty list for a list without one of its candidates. */
  predicate Fails(s: Settings, list: seq<Candidate>, dt: DataType, values: seq<Value>)
    decreases |list|, if dt == String then 1 else 0
  {
    var e := Selected(s, list, dt, values);
    var children := ChildStreams(s.c, e, dt, values);
    SelectedListed(s, list, dt, values);
    && children != []
    && (list == [] || exists i :: 0 <= i < |children| && Fails(s, Filtered(list, e), children[i].0, children[i].1))
  }

  /** `encodeNested`, as far as the choices go. */
  method Choose(s: Settings, list: seq<Candidate>, dt: DataType, values: seq<Value>) returns (r: Result<Layout>)
    ensures r == if Fails(s, list, dt, values) then Error else Ok(Plan(s, list, dt, values))
    decreases |list|, if dt == String then 1 else 0
  {
    hide Selected, ChildStreams, Filtered;
    var e := Select(s, list, dt, values);
    var streams := ChildStreams(s.c, e, dt, values);
    SelectedListed(s, list, dt, values);
    var children: seq<Option<Layout>> := [];
    if streams != [] {
      var nested := CreatePolicy(list, e);
      if nested.Error? { return Error; }
      for i := 0 to |streams|
        invariant |children| == i
        invariant forall k :: 0 <= k < i ==> !Fails(s, Filtered(list, e), streams[k].0, streams[k].1)
        invariant forall k :: 0 <= k < i ==> children[k] == Some(Plan(s, Filtered(list, e), streams[k].0, streams[k].1))
      {
        var child := Choose(s, nested.value, streams[i].0, streams[i].1);
        if child.Error? { return Error; }
        children := children + [Some(child.value)];
      }
    }
    assert children == Plan(s, list, dt, values).children;
    r := Ok(Layout(e, s.compression, children));
  }

  /** Every level is the best choice for its rows among the candidates that no level above has taken. */
  ghost predicate BestThroughout(s: Settings, list: seq<Candidate>, dt: DataType, values: seq<Value>, plan: Layout)
    decreases plan, 1
  {
    var children := ChildStreams(s.c, plan.encoding, dt, values);
    && IsBest(s, list, dt, values, plan.encoding) && plan.compression == s.compression
    && |plan.children| == |children|
    && forall i :: 0 <= i < |children| ==>
      BestChild(s, Filtered(list, plan.encoding), children[i].0, children[i].1, plan.children[i])
  }

  ghost predicate BestChild(
      s: Settings, list: seq<Candidate>, dt: DataType, values: seq<Value>, child: Option<Layout>)
    decreases child, 0
  {
    match child
    case None => false
    case Some(plan) => BestThroughout(s, list, dt, values, plan)
  }

  lemma {:induction false} PlanIsBest(s: Settings, list: seq<Candidate>, dt: DataType, values: seq<Value>)
    ensures BestThroughout(s, list, dt, values, Plan(s, list, dt, values))
    decreases |list|, if dt == String then 1 else 0
  {
    hide Selected, Filtered, ChildStreams, IsBest;
    var e, plan := Selected(s, list, dt, values), Plan(s, list, dt, values);
    var children := ChildStreams(s.c, e, dt, values);
    SelectedListed(s, list, dt, values);
    SelectedIsBest(s, list, dt, values);
    forall i | 0 <= i < |children|
      ensures BestChild(s, Filtered(list, e), children[i].0, children[i].1, plan.children[i])
    {
      PlanIsBest(s, Filtered(list, e), children[i].0, children[i].1);
    }
  }

  // ----- what is chosen can be encoded

  lemma {:induction false} PlanCompatible(s: Settings, list: seq<Candidate>, dt: DataType, values: seq<Value>)
    requires Lawful(s.c)
    ensures Compatible(s.c, Plan(s, list, dt, values), dt, values)
    decreases |list|, if dt == String then 1 else 0
  {
    hide Selected, Filtered, Compatible;
    var e := Selected(s, list, dt, values);
    var children := ChildStreams(s.c, e, dt, values);
    SelectedListed(s, list, dt, values);
    OrderNonEmpty(s.c, values);
    var plan := Plan(s, list, dt, values);
    forall i | 0 <= i < |children|
      ensures i < |plan.children| && CompatibleChild(s.c, plan, i, children[i].0, children[i].1)
    {
      PlanCompatible(s, Filtered(list, e), children[i].0, children[i].1);
    }
    LevelCompatible(s.c, plan, dt, values, children);
  }

  lemma OrderNonEmpty(c: Codec, values: seq<Value>)
    requires Lawful(c)
    ensures values != [] ==> c.order(values) != []
  {
    if values != [] { assert values[0] in c.order(values); }
  }

  lemma LevelCompatible(c: Codec, plan: Layout, dt: DataType, values: seq<Value>, children: seq<(DataType, seq<Value>)>)
    requires children == ChildStreams(c, plan.encoding, dt, values)
    requires plan.encoding == TRIVIAL || (values != [] && c.order(values) != [] &&
      Estimable(c, plan.encoding, dt, values))
    requires forall i :: 0 <= i < |children| ==> CompatibleChild(c, plan, i, children[i].0, children[i].1)
    ensures Compatible(c, plan, dt, values)
  {
    hide CompatibleChild;
    if children != [] { assert CompatibleChild(c, plan, 0, children[0].0, children[0].1); }
    if |children| > 1 { assert CompatibleChild(c, plan, 1, children[1].0, children[1].1); }
  }

  // ----- when the choice cannot fail

  /** Only strings can run out of candidates, and only if every candidate nests strings. */
  predicate Safe(list: seq<Candidate>, dt: DataType)
  {
    dt == String ==> exists e :: Lists(list, e) && !NestsStrings(e)
  }

  lemma {:induction false} SafeNeverFails(s: Settings, list: seq<Candidate>, dt: DataType, values: seq<Value>)
    requires Safe(list, dt)
    ensures !Fails(s, list, dt, values)
    decreases |list|, if dt == String then 1 else 0
  {
    hide Selected, Filtered, ChildStreams;
    var e := Selected(s, list, dt, values);
    var children := ChildStreams(s.c, e, dt, values);
    SelectedListed(s, list, dt, values);
    forall i | 0 <= i < |children| ensures !Fails(s, Filtered(list, e), children[i].0, children[i].1) {
      SafeNeverFails(s, Filtered(list, e), children[i].0, children[i].1);
    }
  }

  // ----- when it can

  /** Strings that all differ. */
  predicate DistinctStrings(values: seq<Value>)
  {
    && (forall i :: 0 <= i < |values| ==> values[i].Str?)
    && forall i, j :: 0 <= i < j < |values| ==> values[i] != values[j]
  }

  lemma {:induction false} RunsOfDistinct(values: seq<Value>)
    requires DistinctStrings(values)
    ensures RunsOf(values).values == values
  {
    hide RunsOf;
    var n := |values| - 1;
    if n < 0 {
      RunsNone(values);
      assert values[..0] == values;
    } else {
      RunsOfDistinct(values[..n]);
      RunsNext(values, n);
      assert values[..n + 1] == values == values[..n] + [values[n]];
      if n > 0 { assert values[..n][n - 1] != values[n]; }
    }
  }

  lemma OrderOfDistinct(c: Codec, values: seq<Value>)
    requires Lawful(c) && DistinctStrings(values)
    ensures DistinctStrings(c.order(values)) && |c.order(values)| == |values|
  {
    var order := c.order(values);
    assert IsOrder(order, values);
    DistinctSubset(order, values);
    DistinctSubset(values, order);
    forall i | 0 <= i < |order| ensures order[i].Str? { assert order[i] in values; }
  }

  lemma {:induction false} OthersOfDistinct(values: seq<Value>, common: Value)
    requires DistinctStrings(values)
    ensures DistinctStrings(Others(values, common)) && |Others(values, common)| >= |values| - 1
    ensures common !in values ==> Others(values, common) == values
    ensures forall v :: v in Others(values, common) ==> v in values
  {
    if values != [] {
      var rest := Others(values[1..], common);
      OthersOfDistinct(values[1..], common);
      assert values == [values[0]] + values[1..];
      if values[0] == common { assert common !in values[1..]; }
      var all := [values[0]] + rest;
      forall i, j | 0 <= i < j < |all| ensures all[i] != all[j] {
        if i == 0 {
          assert all[j] in rest;
          assert all[j] in values[1..];
        }
      }
    }
  }

  /** No more rows than `values`, and each of them among those. */
  predicate DrawnFrom(v: seq<Value>, values: seq<Value>)
  {
    |v| <= |values| && forall x :: x in v ==> x in values
  }

  /** On these strings, or some of them, no candidate costs as much as the largest float. */
  ghost predicate Affordable(s: Settings, list: seq<Candidate>, values: seq<Value>)
  {
    forall c, v :: c in list && DrawnFrom(v, values) ==> Cost(s, c, String, v) < MAX_COST
  }

  lemma {:induction false} FilteredMembers(list: seq<Candidate>, encoding: Byte)
    ensures forall c :: c in Filtered(list, encoding) ==> c in list
  {
    if list != [] { FilteredMembers(list[..|list| - 1], encoding); }
  }

  lemma AffordableLeft(s: Settings, list: seq<Candidate>, encoding: Byte, values: seq<Value>, v: seq<Value>)
    requires Affordable(s, list, values) && DrawnFrom(v, values)
    ensures Affordable(s, Filtered(list, encoding), v)
  {
    hide Cost;
    FilteredMembers(list, encoding);
    forall c, w | c in Filtered(list, encoding) && DrawnFrom(w, v) ensures Cost(s, c, String, w) < MAX_COST {
      assert DrawnFrom(w, values);
    }
  }

  /** A candidate that nests strings leaves enough strings for the others. */
  lemma StringsLeft(c: Codec, encoding: Byte, values: seq<Value>) returns (i: nat)
    requires Lawful(c) && DistinctStrings(values) && values != [] && NestsStrings(encoding)
    requires encoding == MAINLY_CONSTANT ==> |values| > 1
    ensures
      var children := ChildStreams(c, encoding, String, values);
      && i < |children| && children[i].0 == String && DistinctStrings(children[i].1)
      && |children[i].1| >= (if encoding == MAINLY_CONSTANT then |values| - 1 else |values|)
      && DrawnFrom(children[i].1, values)
  {
    RunsOfDistinct(values);
    OrderOfDistinct(c, values);
    assert IsOrder(c.order(values), values);
    if encoding == MAINLY_CONSTANT { OthersOfDistinct(values, MostCommon(c.order(values), values)); }
    i := if encoding == DICTIONARY then 0 else 1;
  }

  /** Candidates that all nest strings are used up one after the other, whatever the estimates. */
  lemma {:induction false} UnsafeFails(s: Settings, list: seq<Candidate>, values: seq<Value>)
    requires Lawful(s.c) && !Safe(list, String) && Affordable(s, list, values)
    requires DistinctStrings(values) && |values| > if Lists(list, MAINLY_CONSTANT) then 1 else 0
    ensures Fails(s, list, String, values)
    decreases |list|
  {
    hide Filtered, ChildStreams, Fails, Affordable, Cost;
    var e := Selected(s, list, String, values);
    if list == [] {
      FailsEmpty(s, values);
    } else {
      SelectedStrings(s, list, values);
      var i := StringsLeft(s.c, e, values);
      var child := ChildStreams(s.c, e, String, values)[i];
      forall f | Lists(Filtered(list, e), f) ensures NestsStrings(f) { assert Lists(list, f); }
      AffordableLeft(s, list, e, values, child.1);
      UnsafeFails(s, Filtered(list, e), child.1);
      FailsBelow(s, list, values, i);
    }
  }

  lemma FailsEmpty(s: Settings, values: seq<Value>)
    ensures Fails(s, [], String, values)
  {
  }

  lemma FailsBelow(s: Settings, list: seq<Candidate>, values: seq<Value>, i: nat)
    requires
      var e := Selected(s, list, String, values);
      && i < |ChildStreams(s.c, e, String, values)|
      && ChildStreams(s.c, e, String, values)[i].0 == String
      && Fails(s, Filtered(list, e), String, ChildStreams(s.c, e, String, values)[i].1)
    ensures Fails(s, list, String, values)
  {
  }

  /** If candidates are affordable, one of them is chosen. */
  lemma SelectedStrings(s: Settings, list: seq<Candidate>, values: seq<Value>)
    requires !Safe(list, String) && list != [] && values != [] && Affordable(s, list, values)
    ensures Lists(list, Selected(s, list, String, values)) && NestsStrings(Selected(s, list, String, values))
  {
    hide Cost;
    CheapestIsMinimal(s, list, String, values, |list|);
    assert Lists(list, list[0].encoding);
    assert Estimable(s.c, list[0].encoding, String, values);
    assert list[0] in list && DrawnFrom(values, values);
    SelectedListed(s, list, String, values);
    var best := Cheapest(s, list, String, values, |list|);
    var i :| 0 <= i < |list| && IsChosen(s, list, String, values, i, best);
    assert Lists(list, list[i].encoding);
  }

  /**
    Exactly from the safe lists the choice never fails, whatever the rows; from the others two strings are
    enough, unless they cost as much as the largest float.
   */
  lemma NeverFails(s: Settings, list: seq<Candidate>, dt: DataType)
    requires Lawful(s.c)
    ensures Safe(list, dt) ==> forall values: seq<Value> :: !Fails(s, list, dt, values)
    ensures !Safe(list, dt) && Affordable(s, list, TwoStrings()) ==> Fails(s, list, dt, TwoStrings())
  {
    hide Fails, Affordable;
    if Safe(list, dt) {
      forall values: seq<Value> ensures !Fails(s, list, dt, values) { SafeNeverFails(s, list, dt, values); }
    } else if Affordable(s, list, TwoStrings()) {
      UnsafeFails(s, list, TwoStrings());
    }
  }

  function TwoStrings(): (r: seq<Value>)
    ensures DistinctStrings(r) && |r| == 2
  {
    [Str([0]), Str([1])]
  }

  /** With Dictionary as the only candidate, two strings cannot be encoded, at an estimate of prefix and rows. */
  lemma DictionaryAloneFails(c: Codec)
    requires Lawful(c)
    ensures
      var s := Settings(c, (e, dt, v: seq<Value>) => PREFIX_SIZE + |v|, 0);
      Fails(s, [Candidate(DICTIONARY, 1.0)], String, TwoStrings())
  {
    hide Fails;
    var s := Settings(c, (e, dt, v: seq<Value>) => PREFIX_SIZE + |v|, 0);
    var list := [Candidate(DICTIONARY, 1.0)];
    forall e | Lists(list, e) ensures NestsStrings(e) { }
    forall candidate, v | candidate in list && DrawnFrom(v, TwoStrings())
      ensures Cost(s, candidate, String, v) < MAX_COST
    {
      assert Cost(s, candidate, String, v) == (PREFIX_SIZE + |v|) as real;
    }
    NeverFails(s, list, String);
  }

  /** The default factors. */
  function DefaultReadFactors(): seq<Candidate>
  {
    [Candidate(CONSTANT, 1.0), Candidate(TRIVIAL, 0.7), Candidate(FIXED_BIT_WIDTH, 0.9),
     Candidate(MAINLY_CONSTANT, 1.0),
     Candidate(SPARSE_BOOL, 1.0), Candidate(DICTIONARY, 1.0), Candidate(RLE, 1.0), Candidate(VARINT, 1.0)]
  }

  lemma DefaultsAreSafe(dt: DataType)
    ensures Safe(DefaultReadFactors(), dt)
  {
    assert DefaultReadFactors()[0].encoding == CONSTANT;
    assert Lists(DefaultReadFactors(), CONSTANT);
  }

  /** Choosing and encoding always work from a safe list, and the bytes denote the rows. */
  method ChooseAndEncode(s: Settings, list: seq<Candidate>, dt: DataType,
        values: seq<Value>)
    returns (r: Result<Encoded>)
    requires Lawful(s.c) && WellTyped(dt, values)
    ensures r.Ok? <==> !Fails(s, list, dt, values)
    ensures Safe(list, dt) ==> r.Ok?
    ensures r.Ok? ==> Encodes(s.c, r.value, dt, values) && Follows(Plan(s, list, dt, values), r.value.layout)
    ensures r.Ok? ==> |r.value.bytes| <= SizeBound(Plan(s, list, dt, values), |values|, |Blob(values)|)
    ensures r.Ok? ==> IsThrifty(s.c, Plan(s, list, dt, values), r.value.bytes)
    ensures BestThroughout(s, list, dt, values, Plan(s, list, dt, values))
  {
    hide Fails, Plan, Compatible, Encodes, WellTyped, Follows, Safe, Lawful, IsThrifty, BestThroughout;
    PlanIsBest(s, list, dt, values);
    var plan := Choose(s, list, dt, values);
    if Safe(list, dt) { SafeNeverFails(s, list, dt, values); }
    if plan.Error? { return Error; }
    PlanCompatible(s, list, dt, values);
    r := Encode(s.c, plan.value, dt, values);
  }

  // ----- columns with nulls

  /** `selectNullable`: values and flags are chosen among the other candidates. */
  function PlanNullable(s: Settings, list: seq<Candidate>, dt: DataType, values: seq<Value>, present: seq<bool>): Layout
  {
    var rest := Filtered(list, NULLABLE);
    Layout(NULLABLE, s.compression,
      [Some(Plan(s, rest, dt.Physical(), values)), Some(Plan(s, rest, Bool, FlagRows(present)))])
  }

  /** Fails for an empty list, or if the choice for the values does; the choice for the flags never does. */
  method ChooseAndEncodeNullable(
      s: Settings, list: seq<Candidate>, dt: DataType, values: seq<Value>, present: seq<bool>)
    returns (r: Result<Encoded>)
    requires Lawful(s.c) && WellTyped(dt, values) && |values| == CountTrue(present) && |present| < 0x1_0000_0000
    ensures r.Ok? <==> list != [] && !Fails(s, Filtered(list, NULLABLE), dt.Physical(), values)
    ensures r.Ok? && |r.value.bytes| < 0x1_0000_0000 ==>
      && Denote(s.c.unpack, r.value.bytes) == Some(NullableColumn(dt, present, values))
      && Capture(r.value.bytes) == Some(r.value.layout)
    ensures r.Ok? ==>
      |r.value.bytes| <= SizeBound(PlanNullable(s, list, dt, values, present), |present|, |Blob(values)|)
  {
    hide Fails, Plan, Compatible, WellTyped, Lawful, Denote, Capture, NullableColumn, CountTrue, SizeBound, Filtered;
    hide FlagRows, Blob;
    var nested := CreatePolicy(list, NULLABLE);
    if nested.Error? { return Error; }
    var first := Choose(s, nested.value, dt.Physical(), values);
    if first.Error? { return Error; }
    SafeNeverFails(s, nested.value, Bool, FlagRows(present));
    var second := Choose(s, nested.value, Bool, FlagRows(present));
    PlanCompatible(s, nested.value, dt.Physical(), values);
    PlanCompatible(s, nested.value, Bool, FlagRows(present));
    var plan := Layout(NULLABLE, s.compression, [Some(first.value), Some(second.value)]);
    assert CompatibleChild(s.c, plan, 0, dt.Physical(), values);
    assert CompatibleChild(s.c, plan, 1, Bool, FlagRows(present));
    r := EncodeNullable(s.c, plan, dt, values, present);
  }
}
