/**
  The bucket counts of `Statistics`: how many values take one, two, ... bytes as varints, counted by
  bit length first and merged seven bit lengths at a time.  They predict the size of the encoding.
 */
module Statistics {
  import opened BitMath
  import Varints

  predicate AtLeast(values: seq<nat>, min: nat)
  {
    forall i :: 0 <= i < |values| ==> min <= values[i]
  }

  predicate AllFit(values: seq<nat>, bits: nat)
  {
    forall i :: 0 <= i < |values| ==> Fits(values[i], bits)
  }

  /** The bit lengths of the values, less the minimum. */
  function BitLengths(values: seq<nat>, min: nat): (r: seq<nat>)
    requires AtLeast(values, min)
    ensures |r| == |values|
  {
    seq<nat>(|values|, i requires 0 <= i < |values| => Varints.BitLength(values[i] - min))
  }

  /** How many of `lengths` lie in [from, to). */
  function CountIn(lengths: seq<nat>, from: nat, to: nat): nat
  {
    if lengths == [] then 0 else (if from <= lengths[0] < to then 1 else 0) + CountIn(lengths[1..], from, to)
  }

  predicate Below(lengths: seq<nat>, limit: nat)
  {
    forall i :: 0 <= i < |lengths| ==> lengths[i] < limit
  }

  /** Bucket `k` holds the bit lengths [First(k), First(k + 1)). */
  function First(k: nat): nat
  {
    if k == 0 then 0 else 7 * k + 1
  }

  /** Bytes needed when bucket `k` takes `k + 1` bytes, for the first `upto` buckets. */
  function Weighted(lengths: seq<nat>, upto: nat): nat
  {
    if upto == 0 then 0 else Weighted(lengths, upto - 1) + CountIn(lengths, First(upto - 1), First(upto)) * upto
  }

  lemma {:induction false} CountSplit(lengths: seq<nat>, a: nat, b: nat, c: nat)
    requires a <= b <= c
    ensures CountIn(lengths, a, b) + CountIn(lengths, b, c) == CountIn(lengths, a, c)
  {
    if lengths != [] { CountSplit(lengths[1..], a, b, c); }
  }

  lemma {:induction false} CountConcat(xs: seq<nat>, ys: seq<nat>, from: nat, to: nat)
    ensures CountIn(xs + ys, from, to) == CountIn(xs, from, to) + CountIn(ys, from, to)
  {
    if xs == [] {
      assert xs + ys == ys;
    } else {
      assert (xs + ys)[1..] == xs[1..] + ys;
      CountConcat(xs[1..], ys, from, to);
    }
  }

  /** No bit length reaches past `limit`. */
  lemma {:induction false} CountWithin(lengths: seq<nat>, from: nat, limit: nat, to: nat)
    requires limit <= to && Below(lengths, limit)
    ensures CountIn(lengths, from, limit) == CountIn(lengths, from, to)
  {
    if lengths != [] { CountWithin(lengths[1..], from, limit, to); }
  }

  /** `populateBucketCounts` */
  method BucketCounts(values: seq<nat>, min: nat, bits: nat) returns (buckets: seq<nat>)
    requires bits in {8, 16, 32, 64} && AtLeast(values, min) && AllFit(values, bits)
    ensures |buckets| == bits / 7 + 1
    ensures forall k :: 0 <= k < |buckets| ==> buckets[k] == CountIn(BitLengths(values, min), First(k), First(k + 1))
  {
    hide CountIn;
    ghost var lengths := BitLengths(values, min);
    var bitCounts: seq<nat> := CountBits(values, min, bits);
    buckets := [];
    var start: nat, end: nat := 0, 8;
    while start < |bitCounts|
      invariant start <= |bitCounts| == bits + 1
      invariant start == if First(|buckets|) < bits + 1 then First(|buckets|) else bits + 1
      invariant start < bits + 1 ==> end == if First(|buckets| + 1) < bits + 1 then First(|buckets| + 1) else bits + 1
      invariant start == bits + 1 ==> |buckets| == bits / 7 + 1
      invariant forall k :: 0 <= k < |buckets| ==> buckets[k] == CountIn(lengths, First(k), First(k + 1))
    {
      var count: nat := 0;
      CountNone(lengths, start);
      for i := start to end
        invariant count == CountIn(lengths, start, i)
      {
        CountSplit(lengths, start, i, i + 1);
        count := count + bitCounts[i];
      }
      CountWithin(lengths, start, bits + 1, First(|buckets| + 1) + bits + 1);
      CountToLimit(lengths, start, end, First(|buckets| + 1), bits + 1);
      buckets := buckets + [count];
      start := end;
      end := end + 7;
      if |bitCounts| < end { end := |bitCounts|; }
    }
  }

  lemma {:induction false} CountNone(lengths: seq<nat>, from: nat)
    ensures CountIn(lengths, from, from) == 0
  {
    if lengths != [] { CountNone(lengths[1..], from); }
  }

  lemma CountToLimit(lengths: seq<nat>, from: nat, end: nat, to: nat, limit: nat)
    requires Below(lengths, limit)
    requires from <= end && end == if to < limit then to else limit
    ensures CountIn(lengths, from, end) == CountIn(lengths, from, to)
  {
    if limit <= to { CountWithin(lengths, from, limit, to); }
  }

  /** The first phase: one counter for each bit length. */
  method CountBits(values: seq<nat>, min: nat, bits: nat) returns (bitCounts: seq<nat>)
    requires AtLeast(values, min) && AllFit(values, bits)
    ensures |bitCounts| == bits + 1
    ensures Below(BitLengths(values, min), bits + 1)
    ensures Counted(bitCounts, BitLengths(values, min))
  {
    ghost var lengths := BitLengths(values, min);
    bitCounts := seq<nat>(bits + 1, _ => 0);
    for i := 0 to |values|
      invariant |bitCounts| == bits + 1 && Below(lengths[..i], bits + 1)
      invariant Counted(bitCounts, lengths[..i])
    {
      var length: nat := Varints.BitLength(values[i] - min);
      Varints.BitLengthFits(values[i] - min, bits);
      assert lengths[..i + 1] == lengths[..i] + [length];
      CountedNext(bitCounts, lengths[..i], length);
      bitCounts := bitCounts[length := bitCounts[length] + 1];
    }
    assert lengths[..|values|] == lengths;
  }

  predicate Counted(bitCounts: seq<nat>, lengths: seq<nat>)
  {
    forall l :: 0 <= l < |bitCounts| ==> bitCounts[l] == CountIn(lengths, l, l + 1)
  }

  lemma CountedNext(bitCounts: seq<nat>, lengths: seq<nat>, length: nat)
    requires Counted(bitCounts, lengths) && length < |bitCounts|
    ensures Counted(bitCounts[length := bitCounts[length] + 1], lengths + [length])
  {
    var next := bitCounts[length := bitCounts[length] + 1];
    forall l | 0 <= l < |next| ensures next[l] == CountIn(lengths + [length], l, l + 1) {
      CountConcat(lengths, [length], l, l + 1);
      CountOne(length, l);
    }
  }

  lemma CountOne(length: nat, l: nat)
    ensures CountIn([length], l, l + 1) == if l == length then 1 else 0
  {
    assert [length][1..] == [];
  }

  /** The size `VarintEncoding::encode` reserves for the data, summed in 32-bit arithmetic. */
  method DataSize(buckets: seq<nat>, ghost lengths: seq<nat>) returns (size: nat)
    requires forall k :: 0 <= k < |buckets| ==> buckets[k] == CountIn(lengths, First(k), First(k + 1))
    ensures size == Weighted(lengths, |buckets|) % 0x1_0000_0000
  {
    hide CountIn;
    size := 0;
    for index := 0 to |buckets|
      invariant size == Weighted(lengths, index) % 0x1_0000_0000
    {
      AddWraps(Weighted(lengths, index), buckets[index] * (index + 1));
      size := (size + buckets[index] * (index + 1)) % 0x1_0000_0000;
    }
  }

  lemma AddWraps(a: nat, b: nat)
    ensures (a % 0x1_0000_0000 + b) % 0x1_0000_0000 == (a + b) % 0x1_0000_0000
  {
  }

  lemma {:induction false} WeightedNext(length: nat, lengths: seq<nat>, upto: nat)
    ensures Weighted([length] + lengths, upto) == Weighted(lengths, upto) + Weighted([length], upto)
  {
    hide CountIn;
    if upto > 0 {
      WeightedNext(length, lengths, upto - 1);
      var from, to := First(upto - 1), First(upto);
      CountConcat([length], lengths, from, to);
      var a, b := CountIn([length], from, to), CountIn(lengths, from, to);
      assert (a + b) * upto == a * upto + b * upto;
    }
  }

  lemma {:induction false} WeightedNone(upto: nat)
    ensures Weighted([], upto) == 0
  {
    if upto > 0 { WeightedNone(upto - 1); }
  }

  lemma {:induction false} WeightedOne(length: nat, upto: nat)
    ensures Weighted([length], upto) ==
      if length >= First(upto) then 0 else if length <= 7 then 1 else (length + 6) / 7
  {
    if upto > 0 {
      WeightedOne(length, upto - 1);
      assert [length][1..] == [];
      assert CountIn([length], First(upto - 1), First(upto)) ==
        if First(upto - 1) <= length < First(upto) then 1 else 0;
    }
  }

  /** The prediction is the exact size of what the writer produces. */
  lemma {:induction false} PredictedSize(values: seq<nat>, min: nat, bits: nat)
    requires Varints.Width(bits) && AtLeast(values, min) && AllFit(values, bits)
    ensures Weighted(BitLengths(values, min), bits / 7 + 1) == |Varints.Encoded(Less(values, min))|
  {
    hide Varints.BitLength, Varints.VarintBytes, Weighted, Pow2;
    if values == [] {
      WeightedNone(bits / 7 + 1);
    } else {
      var lengths := BitLengths(values, min);
      PredictedSize(values[1..], min, bits);
      assert lengths[1..] == BitLengths(values[1..], min);
      assert lengths == [lengths[0]] + lengths[1..];
      WeightedNext(lengths[0], lengths[1..], bits / 7 + 1);
      WeightedOne(lengths[0], bits / 7 + 1);
      Varints.BitLengthFits(values[0] - min, bits);
      Varints.SizeFromBitLength(values[0] - min);
      NoBits(values[0] - min);
      assert Less(values, min)[1..] == Less(values[1..], min);
    }
  }

  lemma NoBits(value: nat)
    ensures Varints.BitLength(value) == 0 <==> value == 0
  {
  }

  function Less(values: seq<nat>, min: nat): (r: seq<nat>)
    requires AtLeast(values, min)
    ensures |r| == |values|
  {
    seq<nat>(|values|, i requires 0 <= i < |values| => values[i] - min)
  }
}
