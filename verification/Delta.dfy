/**
  The delta decoder: a row is either stated anew or the sum of the row before it and a delta, modulo the width
  of the type.  Skipping only adds up the deltas after the last restated row.
 */
module Delta {
  import opened Wrappers
  import opened BitMath
  import opened Format
  import opened Sequences
  import opened Encodings

  /** Addition of the width of the type. */
  function Plus(a: nat, b: nat, modulus: nat): (c: nat)
    requires modulus > 0
    ensures c < modulus
  {
    (a + b) % modulus
  }

  /** The three streams as numbers: which rows are restated, their values, and the deltas of the others. */
  datatype Streams = Streams(restated: seq<bool>, values: seq<nat>, deltas: seq<nat>, modulus: nat)
  {
    ghost predicate Fits()
    {
      && modulus > 0 && |values| == CountTrue(restated) && |deltas| == |restated| - CountTrue(restated)
      && forall i :: 0 <= i < |values| ==> values[i] < modulus
    }

    /** The value after the first `i` rows, from `initial` on. */
    ghost function After(initial: nat, i: nat): (v: nat)
      requires Fits() && initial < modulus && i <= |restated|
      ensures v < modulus
    {
      if i == 0 then initial
      else
        RankBounds(restated, i - 1);
        if restated[i - 1] then values[Rank(restated, i - 1)]
        else Plus(After(initial, i - 1), deltas[i - 1 - Rank(restated, i - 1)], modulus)
    }

    /** The rows the decoder yields when it starts with `initial`. */
    ghost function Rows(initial: nat): (r: seq<nat>)
      requires Fits() && initial < modulus
      ensures |r| == |restated|
    {
      seq(|restated|, i requires 0 <= i < |restated| => After(initial, i + 1))
    }
  }

  // ----- any placement of restatements restores the values

  /** The values of the restated rows among the first `n`, and the deltas of the others. */
  function ValuesOf(rows: seq<nat>, restated: seq<bool>, n: nat): (r: seq<nat>)
    requires n <= |rows| == |restated|
    ensures |r| == Rank(restated, n)
  {
    if n == 0 then [] else ValuesOf(rows, restated, n - 1) + if restated[n - 1] then [rows[n - 1]] else []
  }

  function DeltasOf(rows: seq<nat>, restated: seq<bool>, modulus: nat, n: nat): (r: seq<nat>)
    requires n <= |rows| == |restated| && modulus > 0 && (rows != [] ==> restated[0])
    ensures |r| == n - Rank(restated, n)
  {
    if n == 0 then []
    else
      var delta := if restated[n - 1] then [] else [(rows[n - 1] - rows[n - 2]) % modulus];
      DeltasOf(rows, restated, modulus, n - 1) + delta
  }

  lemma {:induction false} ValuesOfAt(rows: seq<nat>, restated: seq<bool>, n: nat, i: nat)
    requires i < n <= |rows| == |restated| && restated[i]
    ensures Rank(restated, i) < |ValuesOf(rows, restated, n)| &&
      ValuesOf(rows, restated, n)[Rank(restated, i)] == rows[i]
    decreases n
  {
    if i < n - 1 { ValuesOfAt(rows, restated, n - 1, i); }
  }

  lemma {:induction false} DeltasOfAt(rows: seq<nat>, restated: seq<bool>, modulus: nat, n: nat, i: nat)
    requires i < n <= |rows| == |restated| && modulus > 0 && restated[0] && !restated[i]
    ensures 0 < i && i - Rank(restated, i) < |DeltasOf(rows, restated, modulus, n)|
    ensures DeltasOf(rows, restated, modulus, n)[i - Rank(restated, i)] == (rows[i] - rows[i - 1]) % modulus
    decreases n
  {
    if i < n - 1 { DeltasOfAt(rows, restated, modulus, n - 1, i); }
  }

  lemma {:induction false} ValuesOfSmall(rows: seq<nat>, restated: seq<bool>, modulus: nat, n: nat)
    requires n <= |rows| == |restated| && forall i :: 0 <= i < |rows| ==> rows[i] < modulus
    ensures forall i :: 0 <= i < |ValuesOf(rows, restated, n)| ==> ValuesOf(rows, restated, n)[i] < modulus
  {
    if n > 0 { ValuesOfSmall(rows, restated, modulus, n - 1); }
  }

  function Split(rows: seq<nat>, restated: seq<bool>, modulus: nat): Streams
    requires |rows| == |restated| && modulus > 0 && (rows != [] ==> restated[0])
  {
    Streams(restated, ValuesOf(rows, restated, |rows|), DeltasOf(rows, restated, modulus, |rows|), modulus)
  }

  /** Whatever rows are restated besides the first, the decoder yields the rows, also where deltas wrap around. */
  lemma SplitRestores(rows: seq<nat>, restated: seq<bool>, modulus: nat, initial: nat)
    requires |rows| == |restated| && modulus > 0 && (rows != [] ==> restated[0]) && initial < modulus
    requires forall i :: 0 <= i < |rows| ==> rows[i] < modulus
    ensures Split(rows, restated, modulus).Fits() && Split(rows, restated, modulus).Rows(initial) == rows
  {
    ValuesOfSmall(rows, restated, modulus, |rows|);
    var s := Split(rows, restated, modulus);
    assert s.Fits();
    forall i | 0 <= i < |rows| ensures s.Rows(initial)[i] == rows[i] { Restored(rows, restated, modulus, initial, i); }
  }

  lemma {:induction false} Restored(rows: seq<nat>, restated: seq<bool>, modulus: nat, initial: nat, i: nat)
    requires i < |rows| == |restated| && modulus > 0 && restated[0] && initial < modulus
    requires forall i :: 0 <= i < |rows| ==> rows[i] < modulus
    requires Split(rows, restated, modulus).Fits()
    ensures Split(rows, restated, modulus).After(initial, i + 1) == rows[i]
    decreases i
  {
    hide Rank, CountTrue, ValuesOf, DeltasOf, Plus;
    RankBounds(restated, i);
    if restated[i] {
      ValuesOfAt(rows, restated, |rows|, i);
    } else {
      DeltasOfAt(rows, restated, modulus, |rows|, i);
      Restored(rows, restated, modulus, initial, i - 1);
      AddDifference(rows[i - 1], rows[i], modulus);
    }
  }

  // ----- arithmetic

  lemma ModTwice(a: nat, b: nat, m: nat)
    requires m > 0
    ensures (a % m + b) % m == (a + b) % m
  {
    var q := a / m;
    assert a == q * m + a % m;
    ModMultiple(a % m + b, q, m);
  }

  lemma {:induction false} ModMultiple(x: nat, k: nat, m: nat)
    requires m > 0
    ensures (x + k * m) % m == x % m
  {
    var r, q := x % m, x / m;
    assert x == q * m + r;
    assert x + k * m == (q + k) * m + r;
    DivModUnique(x + k * m, m, q + k, r);
  }

  lemma AddDifference(a: nat, b: nat, m: nat)
    requires a < m && b < m
    ensures Plus(a, (b - a) % m, m) == b
  {
    DivModUnique(b, m, 0, b);
    if b >= a {
      DivModUnique(b - a, m, 0, b - a);
    } else {
      DivModUnique(b - a, m, -1, b - a + m);
      ModMultiple(b, 1, m);
    }
  }

  lemma PlusZero(v: nat, m: nat)
    requires v < m
    ensures Plus(v, 0, m) == v
  {
    DivModUnique(v, m, 0, v);
  }

  lemma PlusFirst(a: nat, b: nat, c: nat, m: nat)
    requires m > 0
    ensures Plus(Plus(a, b, m), c, m) == (a + b + c) % m
  {
    ModTwice(a + b, c, m);
  }

  lemma PlusSecond(a: nat, b: nat, c: nat, m: nat)
    requires m > 0
    ensures Plus(a, Plus(b, c, m), m) == (a + b + c) % m
  {
    ModTwice(b + c, a, m);
  }

  lemma AddLater(v: nat, total: nat, d: nat, m: nat)
    requires m > 0
    ensures Plus(Plus(v, total, m), d, m) == Plus(v, Plus(total, d, m), m)
  {
    hide Plus;
    PlusFirst(v, total, d, m);
    PlusSecond(v, total, d, m);
  }

  // ----- what skipping adds up

  /** The first `n` deltas, added with wrap-around. */
  function Total(deltas: seq<nat>, modulus: nat, n: nat): nat
    requires n <= |deltas| && modulus > 0
  {
    if n == 0 then 0 else Plus(Total(deltas, modulus, n - 1), deltas[n - 1], modulus)
  }

  /** From row `from` on nothing is restated: the rows are the value there plus the deltas. */
  lemma {:induction false} Accumulated(s: Streams, initial: nat, from: nat, k: nat, deltas: seq<nat>)
    requires s.Fits() && initial < s.modulus && from + k <= |s.restated| && k <= |deltas|
    requires forall i :: from <= i < from + k ==> !s.restated[i]
    requires from - Rank(s.restated, from) + |deltas| <= |s.deltas|
    requires deltas == s.deltas[from - Rank(s.restated, from)..from - Rank(s.restated, from) + |deltas|]
    ensures Rank(s.restated, from + k) == Rank(s.restated, from)
    ensures s.After(initial, from + k) == Plus(s.After(initial, from), Total(deltas, s.modulus, k), s.modulus)
    decreases k
  {
    hide CountTrue, Streams.Fits, Streams.After, Rank, Plus;
    RankFlat(s.restated, from, from + k);
    if k == 0 {
      AfterBounded(s, initial, from);
      PlusZero(s.After(initial, from), s.modulus);
    } else {
      Accumulated(s, initial, from, k - 1, deltas);
      AfterNext(s, initial, from + k - 1);
      RankFlat(s.restated, from, from + k - 1);
      AddLater(s.After(initial, from), Total(deltas, s.modulus, k - 1), deltas[k - 1], s.modulus);
    }
  }

  lemma AfterNext(s: Streams, initial: nat, i: nat)
    requires s.Fits() && initial < s.modulus && i < |s.restated|
    ensures s.restated[i] ==>
      Rank(s.restated, i) < |s.values| && s.After(initial, i + 1) == s.values[Rank(s.restated, i)]
    ensures !s.restated[i] ==>
      && i - Rank(s.restated, i) < |s.deltas|
      && s.After(initial, i + 1) == Plus(s.After(initial, i), s.deltas[i - Rank(s.restated, i)], s.modulus)
  {
    RankBounds(s.restated, i);
  }

  lemma RowsNext(s: Streams, initial: nat, p: nat, i: nat)
    requires s.Fits() && initial < s.modulus && p <= i < |s.restated|
    ensures s.Rows(initial)[p..i + 1] == s.Rows(initial)[p..i] + [s.After(initial, i + 1)]
  {
    hide Streams.Fits, Streams.After;
  }

  lemma StreamsParts(deltas: Encoding, restatements: Encoding, isRestatements: Encoding, modulus: nat)
    ensures StreamsFrom(deltas, restatements, isRestatements, modulus).modulus == modulus
  {
  }

  lemma AfterBounded(s: Streams, initial: nat, i: nat)
    requires s.Fits() && initial < s.modulus && i <= |s.restated|
    ensures s.modulus > 0 && s.After(initial, i) < s.modulus && s.After(initial, 0) == initial
  {
  }

  // ----- resetting

  /** A reset leaves the current value as it is, which shows exactly when the first row is not restated. */
  lemma RowsIndependent(s: Streams)
    requires s.Fits() && s.modulus > 1
    ensures (forall a, b :: 0 <= a < s.modulus && 0 <= b < s.modulus ==> s.Rows(a) == s.Rows(b)) <==>
      (s.restated == [] || s.restated[0])
  {
    hide Streams.After, Streams.Fits, Rank, CountTrue, Plus;
    if s.restated == [] || s.restated[0] {
      forall a, b | 0 <= a < s.modulus && 0 <= b < s.modulus ensures s.Rows(a) == s.Rows(b) {
        forall i | 0 <= i < |s.restated| ensures s.Rows(a)[i] == s.Rows(b)[i] { AfterIndependent(s, a, b, i + 1); }
      }
    } else {
      AfterNext(s, 0, 0);
      AfterNext(s, 1, 0);
      AfterBounded(s, 0, 0);
      AfterBounded(s, 1, 0);
      RankAll(s.restated);
      NextDiffers(s.deltas[0], s.modulus);
      assert s.Rows(0)[0] != s.Rows(1)[0];
    }
  }

  lemma {:induction false} AfterIndependent(s: Streams, a: nat, b: nat, i: nat)
    requires s.Fits() && a < s.modulus && b < s.modulus && 0 < i <= |s.restated| && s.restated[0]
    ensures s.After(a, i) == s.After(b, i)
    decreases i
  {
    if i > 1 { AfterIndependent(s, a, b, i - 1); }
  }

  lemma NextDiffers(n: nat, m: nat)
    requires m > 1
    ensures Plus(0, n, m) != Plus(1, n, m)
  {
    var r, q := n % m, n / m;
    assert n == q * m + r;
    if r + 1 < m {
      DivModUnique(1 + n, m, q, r + 1);
    } else {
      assert (q + 1) * m == q * m + m;
      DivModUnique(1 + n, m, q + 1, 0);
    }
  }

  // ----- the decoder

  ghost function StreamsFrom(deltas: Encoding, restatements: Encoding, isRestatements: Encoding, modulus: nat): Streams
  {
    Streams(Flags(isRestatements.Rows()), Nats(restatements.Rows()), Nats(deltas.Rows()), modulus)
  }

  class DeltaEncoding {
    const deltas: Encoding
    const restatements: Encoding
    const isRestatements: Encoding
    const modulus: nat
    ghost const streams: Streams
    ghost const repr: set<object>
    var currentValue: nat
    /** The value the decoder started with, before the first row or at the last reset. */
    ghost var initial: nat
    ghost var at: nat

    constructor (deltas: Encoding, restatements: Encoding, isRestatements: Encoding, modulus: nat, currentValue: nat)
      requires deltas.Valid() && restatements.Valid() && isRestatements.Valid()
      requires deltas.At() == restatements.At() == isRestatements.At() == 0
      requires deltas.Repr() !! restatements.Repr() && deltas.Repr() !! isRestatements.Repr()
      requires restatements.Repr() !! isRestatements.Repr()
      requires StreamsFrom(deltas, restatements, isRestatements, modulus).Fits()
      requires currentValue < modulus
      ensures Valid() && at == 0 && initial == currentValue
      ensures streams == StreamsFrom(deltas, restatements, isRestatements, modulus)
      ensures repr == {this} + deltas.Repr() + restatements.Repr() + isRestatements.Repr()
    {
      hide Encoding.Valid, Encoding.At, Encoding.Rows, CountTrue, Rank, StreamsFrom, Streams.Fits, Streams.After;
      hide Flags, Nats, Streams.Rows, Encoding.Repr;
      ReprAllocated(deltas);
      ReprAllocated(restatements);
      ReprAllocated(isRestatements);
      ghost var s := StreamsFrom(deltas, restatements, isRestatements, modulus);
      StreamsParts(deltas, restatements, isRestatements, modulus);
      RankAll(s.restated);
      AfterBounded(s, currentValue, 0);
      this.deltas, this.restatements, this.isRestatements, this.modulus := deltas, restatements, isRestatements,
        modulus;
      streams := s;
      repr := {this} + deltas.Repr() + restatements.Repr() + isRestatements.Repr();
      this.currentValue, initial, at := currentValue, currentValue, 0;
    }

    ghost predicate Built()
    {
      && Owned(deltas) && Owned(restatements) && Owned(isRestatements) && this in repr
      && deltas.Repr() !! restatements.Repr() && deltas.Repr() !! isRestatements.Repr()
      && restatements.Repr() !! isRestatements.Repr()
      && streams == StreamsFrom(deltas, restatements, isRestatements, modulus)
      && streams.Fits()
    }

    ghost predicate Owned(child: Encoding)
    {
      child.Repr() <= repr && this !in child.Repr()
    }

    /** Where the three cursors are. */
    ghost predicate Standing(row: nat, value: nat, delta: nat)
      reads deltas.Repr(), restatements.Repr(), isRestatements.Repr()
    {
      && Built() && deltas.Valid() && restatements.Valid() && isRestatements.Valid()
      && isRestatements.At() == row && restatements.At() == value && deltas.At() == delta
    }

    /** All three cursors and the current value stand after row `at`. */
    ghost predicate Valid()
      reads this, repr
    {
      && Built() && at <= |streams.restated| && initial < modulus
      && Standing(at, Rank(streams.restated, at), at - Rank(streams.restated, at))
      && currentValue == streams.After(initial, at)
    }

    method Reset()
      requires Valid()
      modifies repr
      ensures Valid() && at == 0 && initial == old(currentValue)
    {
      hide Standing, CountTrue, Rank, Streams.Fits, Streams.After, Encoding.Repr, Built;
      OwnsParts();
      AfterBounded(streams, initial, at);
      ResetStreams(at, Rank(streams.restated, at), at - Rank(streams.restated, at));
      RankAll(streams.restated);
      AfterBounded(streams, currentValue, 0);
      initial := currentValue;
      at := 0;
    }

    // ----- one stream at a time

    method ResetStreams(ghost row: nat, ghost value: nat, ghost delta: nat)
      requires Standing(row, value, delta)
      modifies deltas.Repr(), restatements.Repr(), isRestatements.Repr()
      ensures Standing(0, 0, 0)
    {
      hide Encoding.Valid, Encoding.At, Encoding.Repr, Encoding.Rows, Flags, Nats, Streams.Fits;
      deltas.Reset();
      restatements.Reset();
      isRestatements.Reset();
    }

    method ReadFlags(n: nat, ghost row: nat, ghost value: nat, ghost delta: nat) returns (flags: seq<bool>, count: nat)
      requires Standing(row, value, delta) && row + n <= |streams.restated|
      modifies isRestatements.Repr()
      ensures Standing(row + n, value, delta)
      ensures flags == streams.restated[row..row + n] && count == CountTrue(flags)
    {
      hide Encoding.Valid, Encoding.At, Encoding.Repr, Encoding.Rows, CountTrue, Rank, Flags, Nats, Streams.Fits,
        Streams.After;
      var buffer := isRestatements.Materialize(n);
      FlagsSlice(isRestatements.Rows(), row, row + n);
      flags := Flags(buffer);
      count := CountFlags(flags, n);
      assert flags[..n] == flags;
    }

    method ReadValues(n: nat, ghost row: nat, ghost value: nat, ghost delta: nat) returns (values: seq<nat>)
      requires Standing(row, value, delta) && value + n <= |streams.values|
      modifies restatements.Repr()
      ensures Standing(row, value + n, delta) && values == streams.values[value..value + n]
    {
      hide Encoding.Valid, Encoding.At, Encoding.Repr, Encoding.Rows, CountTrue, Rank, Flags, Nats, Streams.Fits,
        Streams.After;
      var buffer := restatements.Materialize(n);
      NatsSlice(restatements.Rows(), value, value + n);
      values := Nats(buffer);
    }

    method ReadDeltas(n: nat, ghost row: nat, ghost value: nat, ghost delta: nat) returns (values: seq<nat>)
      requires Standing(row, value, delta) && delta + n <= |streams.deltas|
      modifies deltas.Repr()
      ensures Standing(row, value, delta + n) && values == streams.deltas[delta..delta + n]
    {
      hide Encoding.Valid, Encoding.At, Encoding.Repr, Encoding.Rows, CountTrue, Rank, Flags, Nats, Streams.Fits,
        Streams.After;
      var buffer := deltas.Materialize(n);
      NatsSlice(deltas.Rows(), delta, delta + n);
      values := Nats(buffer);
    }

    method SkipValues(n: nat, ghost row: nat, ghost value: nat, ghost delta: nat)
      requires Standing(row, value, delta) && value + n <= |streams.values|
      modifies restatements.Repr()
      ensures Standing(row, value + n, delta)
    {
      hide Encoding.Valid, Encoding.At, Encoding.Repr, Encoding.Rows, CountTrue, Rank, Flags, Streams.Fits,
        Streams.After;
      restatements.Skip(n);
    }

    method SkipDeltas(n: nat, ghost row: nat, ghost value: nat, ghost delta: nat)
      requires Standing(row, value, delta) && delta + n <= |streams.deltas|
      modifies deltas.Repr()
      ensures Standing(row, value, delta + n)
    {
      hide Encoding.Valid, Encoding.At, Encoding.Repr, Encoding.Rows, CountTrue, Rank, Flags, Streams.Fits,
        Streams.After;
      deltas.Skip(n);
    }

    // ----- reading and skipping rows

    /** Reads the flags, the values of the restated rows and the deltas of the others, and merges them. */
    method Materialize(n: nat) returns (output: seq<nat>)
      requires Valid() && at + n <= |streams.restated|
      modifies repr
      ensures Valid() && at == old(at) + n && initial == old(initial)
      ensures output == streams.Rows(initial)[old(at)..at]
    {
      hide Standing, CountTrue, Rank, Streams.Fits, Streams.After, Streams.Rows, Encoding.Repr, Built;
      OwnsParts();
      ghost var p, r := at, Rank(streams.restated, at);
      StreamBounds(streams, p, p + n);
      var isRestatementsBuffer, numRestatements := ReadFlags(n, p, r, p - r);
      var restatementsBuffer := ReadValues(numRestatements, p + n, r, p - r);
      var deltasBuffer := ReadDeltas(n - numRestatements, p + n, r + numRestatements, p - r);
      AfterBounded(streams, initial, p);
      output, currentValue :=
        AddUp(isRestatementsBuffer, restatementsBuffer, deltasBuffer, currentValue, modulus, streams, initial, p);
      at := at + n;
    }

    /** Finds the last restated row and adds up the deltas after it. */
    method Skip(n: nat)
      requires Valid() && at + n <= |streams.restated|
      modifies repr
      ensures Valid() && at == old(at) + n && initial == old(initial)
    {
      hide Standing, CountTrue, Rank, Streams.Fits, Streams.After, Streams.Rows, Encoding.Repr, Built;
      if n == 0 { return; }
      OwnsParts();
      ghost var p, r := at, Rank(streams.restated, at);
      StreamBounds(streams, p, p + n);
      var flags, numRestatements := ReadFlags(n, p, r, p - r);
      var lastRestatement := FindLast(flags);
      LastRestated(streams, initial, p, n, lastRestatement);
      if lastRestatement >= 0 { SkipToRestated(n, flags, numRestatements, lastRestatement, p); }
      AccumulateRest(n - 1 - lastRestatement, p + lastRestatement + 1, p + n);
      at := at + n;
    }

    lemma OwnsParts()
      requires Built()
      ensures this in repr && deltas.Repr() + restatements.Repr() + isRestatements.Repr() <= repr - {this}
      ensures streams.Fits() && streams.modulus == modulus
    {
      hide Encoding.Repr, Streams.Fits;
    }

    /** Goes on to just after the last restated row of the `n` rows from `p` on. */
    method SkipToRestated(n: nat, flags: seq<bool>, numRestatements: nat, lastRestatement: nat, ghost p: nat)
      requires Built() && initial < modulus && p + n <= |streams.restated| && lastRestatement < n
      requires Standing(p + n, Rank(streams.restated, p), p - Rank(streams.restated, p))
      requires flags == streams.restated[p..p + n] && numRestatements == CountTrue(flags) && flags[lastRestatement]
      requires forall i :: lastRestatement < i < n ==> !flags[i]
      modifies restatements.Repr(), deltas.Repr(), `currentValue
      ensures
        var row := p + lastRestatement + 1;
        Standing(p + n, Rank(streams.restated, p + n), row - Rank(streams.restated, row))
      ensures currentValue == streams.After(initial, p + lastRestatement + 1)
    {
      hide Standing, CountTrue, Rank, Streams.Fits, Streams.After, Streams.Rows, Encoding.Repr, Built;
      OwnsParts();
      ghost var r, row := Rank(streams.restated, p), p + lastRestatement + 1;
      StreamBounds(streams, p, p + n);
      StreamBounds(streams, row, p + n);
      forall i | row <= i < p + n ensures !streams.restated[i] { assert flags[i - p] == streams.restated[i]; }
      LastRestated(streams, initial, p, n, lastRestatement);
      SkipValues(numRestatements - 1, p + n, r, p - r);
      var value := ReadValues(1, p + n, r + numRestatements - 1, p - r);
      currentValue := value[0];
      var restatedBefore := CountFlags(flags, lastRestatement);
      SkipDeltas(lastRestatement - restatedBefore, p + n, r + numRestatements, p - r);
    }

    /** Adds up the deltas of `n` rows from `row` on, none of which is restated. */
    method AccumulateRest(n: nat, ghost row: nat, ghost end: nat)
      requires Built() && initial < modulus && row + n == end <= |streams.restated|
      requires Standing(end, Rank(streams.restated, end), row - Rank(streams.restated, row))
      requires forall i :: row <= i < end ==> !streams.restated[i]
      requires currentValue == streams.After(initial, row)
      modifies deltas.Repr(), `currentValue
      ensures Standing(end, Rank(streams.restated, end), end - Rank(streams.restated, end))
      ensures currentValue == streams.After(initial, end)
    {
      hide Standing, CountTrue, Rank, Streams.Fits, Streams.After, Streams.Rows, Encoding.Repr, Built, Plus, Total;
      OwnsParts();
      StreamBounds(streams, row, end);
      RankFlat(streams.restated, row, end);
      var deltasBuffer := ReadDeltas(n, end, Rank(streams.restated, end), row - Rank(streams.restated, row));
      Accumulated(streams, initial, row, n, deltasBuffer);
      AfterBounded(streams, initial, row);
      var total := SumDeltas(deltasBuffer, modulus);
      currentValue := Plus(currentValue, total, modulus);
    }
  }

  method CountFlags(flags: seq<bool>, n: nat) returns (count: nat)
    requires n <= |flags|
    ensures count == Rank(flags, n) && (n == |flags| ==> count == CountTrue(flags))
  {
    count := 0;
    for i := 0 to n
      invariant count == Rank(flags, i)
    {
      if flags[i] { count := count + 1; }
    }
  }

  method FindLast(flags: seq<bool>) returns (last: int)
    ensures -1 <= last < |flags| && (last >= 0 ==> flags[last])
    ensures forall i :: last < i < |flags| ==> !flags[i]
  {
    last := |flags| - 1;
    while last >= 0
      invariant -1 <= last < |flags|
      invariant forall i :: last < i < |flags| ==> !flags[i]
    {
      if flags[last] { return; }
      last := last - 1;
    }
  }

  method SumDeltas(deltas: seq<nat>, modulus: nat) returns (total: nat)
    requires modulus > 0
    ensures total == Total(deltas, modulus, |deltas|)
  {
    total := 0;
    for i := 0 to |deltas|
      invariant total == Total(deltas, modulus, i)
    {
      total := Plus(total, deltas[i], modulus);
    }
  }

  /** The loop of `materialize`. */
  method AddUp(isRestatements: seq<bool>, restatements: seq<nat>, deltas: seq<nat>, start: nat, modulus: nat,
      ghost s: Streams, ghost initial: nat, ghost p: nat)
    returns (output: seq<nat>, currentValue: nat)
    requires s.Fits() && initial < s.modulus == modulus && p + |isRestatements| <= |s.restated|
    requires isRestatements == s.restated[p..p + |isRestatements|] && start == s.After(initial, p)
    requires Rank(s.restated, p) + |restatements| == Rank(s.restated, p + |isRestatements|) <= |s.values|
    requires restatements == s.values[Rank(s.restated, p)..Rank(s.restated, p) + |restatements|]
    requires |restatements| + |deltas| == |isRestatements| && p - Rank(s.restated, p) + |deltas| <= |s.deltas|
    requires deltas == s.deltas[p - Rank(s.restated, p)..p - Rank(s.restated, p) + |deltas|]
    ensures output == s.Rows(initial)[p..p + |isRestatements|] && currentValue == s.After(initial, p + |isRestatements|)
  {
    hide CountTrue, Rank, Streams.Fits, Streams.After, Streams.Rows, Plus;
    output, currentValue := [], start;
    var nextRestatement, nextDelta := 0, 0;
    ghost var r := Rank(s.restated, p);
    for i := 0 to |isRestatements|
      invariant output == s.Rows(initial)[p..p + i] && currentValue == s.After(initial, p + i)
      invariant nextRestatement == Rank(s.restated, p + i) - r && nextDelta == i - nextRestatement
    {
      AfterNext(s, initial, p + i);
      RowsNext(s, initial, p, p + i);
      RankNext(s.restated, p + i);
      RankMono(s.restated, p, p + i);
      RankMono(s.restated, p + i + 1, p + |isRestatements|);
      if isRestatements[i] {
        currentValue := restatements[nextRestatement];
        nextRestatement := nextRestatement + 1;
      } else {
        currentValue := Plus(currentValue, deltas[nextDelta], modulus);
        nextDelta := nextDelta + 1;
      }
      output := output + [currentValue];
    }
  }

  /** How much of each stream the rows from `p` up to `q` take. */
  lemma StreamBounds(s: Streams, p: nat, q: nat)
    requires s.Fits() && p <= q <= |s.restated|
    ensures Rank(s.restated, p) <= Rank(s.restated, q) <= |s.values|
    ensures p - Rank(s.restated, p) <= q - Rank(s.restated, q) <= |s.deltas|
    ensures CountTrue(s.restated[p..q]) == Rank(s.restated, q) - Rank(s.restated, p)
  {
    SliceRanks(s.restated, p, q);
  }

  /** Where the streams stand at the last restated row. */
  lemma LastRestated(s: Streams, initial: nat, p: nat, n: nat, last: int)
    requires s.Fits() && initial < s.modulus && p + n <= |s.restated| && -1 <= last < n
    requires last >= 0 ==> s.restated[p + last]
    requires forall i :: p + last < i < p + n ==> !s.restated[i]
    ensures Rank(s.restated, p + last + 1) == Rank(s.restated, p + n)
    ensures last >= 0 ==>
      && Rank(s.restated, p) < Rank(s.restated, p + n) <= |s.values|
      && s.After(initial, p + last + 1) == s.values[Rank(s.restated, p + n) - 1]
      && Rank(s.restated[p..p + n], last) == Rank(s.restated, p + n) - 1 - Rank(s.restated, p)
  {
    hide CountTrue, Rank, Streams.Fits, Streams.After;
    RankFlat(s.restated, p + last + 1, p + n);
    StreamBounds(s, p, p + n);
    if last >= 0 {
      RankNext(s.restated, p + last);
      RankMono(s.restated, p, p + last);
      AfterNext(s, initial, p + last);
      RankInSlice(s.restated, p, p + n, last);
    }
  }
}
