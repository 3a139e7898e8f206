/** What the stores and loads of a FixedBitArray mean for each other. */
module FixedBitArrayLaws {
  import opened BitMath
  import opened FixedBitArrays

  /** Buffers with the same bits are the same buffer. */
  lemma SameBits(a: seq<Byte>, b: seq<Byte>)
    requires |a| == |b| && forall k: nat :: BufBit(a, k) == BufBit(b, k)
    ensures a == b
  {
    hide Bit;
    forall i | 0 <= i < |a| ensures a[i] == b[i] {
      forall k: nat ensures Bit(a[i], k) == Bit(b[i], k) {
        if k < 8 {
          BitLeNat(a, 8 * i + k);
          BitLeNat(b, 8 * i + k);
          assert BufBit(a, 8 * i + k) == BufBit(b, 8 * i + k);
          assert (8 * i + k) / 8 == i && (8 * i + k) % 8 == k;
        } else {
          assert Pow2(8) == 256;
          FitsBit(a[i], 8, k);
          FitsBit(b[i], 8, k);
        }
      }
      BitExt(a[i], b[i]);
    }
  }

  /** Every bit is in some slot, so the slots determine the buffer. */
  lemma SlotsDetermine(a: seq<Byte>, b: seq<Byte>, w: nat)
    requires |a| == |b| && w > 0 && forall s: nat :: Slot(a, w, s) == Slot(b, w, s)
    ensures a == b
  {
    hide Slot, BufBit;
    forall k: nat ensures BufBit(a, k) == BufBit(b, k) {
      var s, j := k / w, k % w;
      assert s * w + j == k;
      SlotBit(a, w, s, j);
      SlotBit(b, w, s, j);
      assert Slot(a, w, s) == Slot(b, w, s);
    }
    SameBits(a, b);
  }

  /** `bulkSet32` leaves the very bytes that setting the slots one by one would. */
  lemma BulkIsLoop(before: seq<Byte>, bulk: seq<Byte>, loop: seq<Byte>, w: nat, start: nat, offsets: seq<nat>)
    requires w > 0 && SlotsOred(before, bulk, w, start, offsets) && SlotsOred(before, loop, w, start, offsets)
    ensures bulk == loop
  {
    hide Slot, OredValue;
    forall s: nat ensures Slot(bulk, w, s) == Slot(loop, w, s) {
      assert Slot(bulk, w, s) == OredValue(before, w, start, offsets, s);
      assert Slot(loop, w, s) == OredValue(before, w, start, offsets, s);
    }
    SlotsDetermine(bulk, loop, w);
  }

  /** Sets slot after slot. */
  method SetEach(packed: FixedBitArray, start: nat, offsets: seq<nat>)
    requires packed.Holds(start + |offsets|) && packed.bitWidth <= 32
    requires forall v :: v in offsets ==> Fits(v, packed.bitWidth)
    modifies packed.buffer
    ensures SlotsOred(old(packed.buffer[..]), packed.buffer[..], packed.bitWidth, start, offsets)
  {
    hide SlotsOred, BufferSize, Fits;
    NothingOred(packed.buffer[..], packed.bitWidth, start);
    assert offsets[..0] == [];
    for i := 0 to |offsets|
      invariant SlotsOred(old(packed.buffer[..]), packed.buffer[..], packed.bitWidth, start, offsets[..i])
    {
      ghost var middle := packed.buffer[..];
      packed.HoldsMono(start + i + 1, start + |offsets|);
      packed.Set32(start + i, offsets[i]);
      OredThenOred(old(packed.buffer[..]), middle, packed.buffer[..], packed.bitWidth, start, offsets[..i],
        [offsets[i]]);
      assert offsets[..i + 1] == offsets[..i] + [offsets[i]];
    }
    assert offsets[..|offsets|] == offsets;
  }

  predicate Storable(values: seq<nat>, baseline: nat, w: nat, outBits: nat)
  {
    forall i :: 0 <= i < |values| ==>
      baseline <= values[i] < baseline + 0x1_0000_0000 && Fits(values[i], outBits) && Fits(values[i] - baseline, w)
  }

  ghost predicate Zeroed(b: seq<Byte>, w: nat, start: nat, end: nat)
  {
    forall s: nat :: start <= s < end ==> Slot(b, w, s) == 0
  }

  /** Values or-ed into zeroed slots can be read back, with the baseline taken off and added again. */
  lemma StoredThenDecoded(
      before: seq<Byte>, after: seq<Byte>, w: nat, start: nat, values: seq<nat>, baseline: nat, outBits: nat)
    requires SlotsOred(before, after, w, start, Offsets(values, baseline))
    requires Zeroed(before, w, start, start + |values|) && Storable(values, baseline, w, outBits)
    ensures Decoded(after, w, baseline, outBits, start, |values|) == values
    ensures forall s: nat :: !(start <= s < start + |values|) ==> Slot(after, w, s) == Slot(before, w, s)
  {
    hide Slot;
    hide SlotsOred, Zeroed, Storable, Wrapped;
    var decoded := Decoded(after, w, baseline, outBits, start, |values|);
    forall i: nat | i < |values| ensures decoded[i] == values[i] {
      StoredSlot(before, after, w, start, values, baseline, outBits, i);
    }
    forall s: nat | !(start <= s < start + |values|) ensures Slot(after, w, s) == Slot(before, w, s) {
      OredAway(before, after, w, start, Offsets(values, baseline), s);
    }
  }

  lemma StoredSlot(before: seq<Byte>, after: seq<Byte>, w: nat, start: nat, values: seq<nat>, baseline: nat,
        outBits: nat, i: nat)
    requires SlotsOred(before, after, w, start, Offsets(values, baseline)) && i < |values|
    requires Zeroed(before, w, start, start + |values|) && Storable(values, baseline, w, outBits)
    ensures Wrapped(Slot(after, w, start + i) + baseline, outBits) == values[i]
  {
    hide Slot, Or;
    var s := start + i;
    assert Slot(after, w, s) == OredValue(before, w, start, Offsets(values, baseline), s);
    assert Slot(before, w, s) == 0;
    OrZero(values[i] - baseline);
    DivModUnique(values[i], Pow2(outBits), 0, values[i]);
  }

  lemma OredAway(before: seq<Byte>, after: seq<Byte>, w: nat, start: nat, offsets: seq<nat>, s: nat)
    requires SlotsOred(before, after, w, start, offsets) && !(start <= s < start + |offsets|)
    ensures Slot(after, w, s) == Slot(before, w, s)
  {
    hide Slot, Or;
    assert Slot(after, w, s) == OredValue(before, w, start, offsets, s);
  }

  /** Bulk write, then bulk read, at any width, start and length. */
  method BulkRoundTrip(packed: FixedBitArray, start: nat, values: seq<nat>, baseline: nat,
        outBits: nat)
    returns (r: seq<nat>)
    requires packed.Holds(start + |values|) && packed.bitWidth <= 32
    requires Zeroed(packed.buffer[..], packed.bitWidth, start, start + |values|)
    requires Storable(values, baseline, packed.bitWidth, outBits)
    modifies packed.buffer
    ensures r == values
    ensures forall s: nat :: !(start <= s < start + |values|) ==>
      Slot(packed.buffer[..], packed.bitWidth, s) == old(Slot(packed.buffer[..], packed.bitWidth, s))
  {
    hide Slot, BufferSize, SlotsOred, Fits, Decoded, Zeroed;
    OffsetsFit(values, baseline, packed.bitWidth, outBits);
    ghost var before := packed.buffer[..];
    packed.BulkSet32(start, values, baseline);
    r := packed.BulkGet32(start, |values|, baseline, outBits);
    StoredThenDecoded(before, packed.buffer[..], packed.bitWidth, start, values, baseline, outBits);
  }

  lemma OffsetsFit(values: seq<nat>, baseline: nat, w: nat, outBits: nat)
    requires Storable(values, baseline, w, outBits)
    ensures forall v :: v in Offsets(values, baseline) ==> Fits(v, w)
  {
  }

  /** `zeroAndSet`, then `get`, at any width up to 64: the value comes back and nothing else changes. */
  method SetThenGet(packed: FixedBitArray, index: nat, value: nat) returns (r: nat)
    requires packed.Holds(index + 1) && Fits(value, packed.bitWidth)
    modifies packed.buffer
    ensures r == value
    ensures forall s: nat :: s != index ==>
      Slot(packed.buffer[..], packed.bitWidth, s) == old(Slot(packed.buffer[..], packed.bitWidth, s))
  {
    packed.ZeroAndSet(index, value);
    r := packed.Get(index);
  }
}
