/**
  FixedBitArray: integers packed into a fixed number of bits.  The buffer is read and written through
  64-bit words; slot `i` of width `w` is the bit field of length `w` at bit `i * w`.
 */
module FixedBitArrays {
  import opened BitMath

  const SLOP := 7

  function BytesRequired(bitCount: nat): nat
  {
    bitCount / 8 + if bitCount % 8 != 0 then 1 else 0
  }

  function BufferSize(elementCount: nat, bitWidth: nat): nat
  {
    BytesRequired(elementCount * bitWidth) + SLOP
  }

  predicate BufBit(b: seq<Byte>, i: nat)
  {
    Bit(LeNat(b), i)
  }

  /** Slot `i` of a buffer: a bit field of the one big little-endian number the buffer holds. */
  function Slot(b: seq<Byte>, w: nat, i: nat): nat
  {
    Field(LeNat(b), i * w, w)
  }

  /** `after` is `before` with `value` or-ed in at bit `start`. */
  ghost predicate OredAt(before: seq<Byte>, after: seq<Byte>, start: nat, value: nat)
  {
    |after| == |before| &&
    forall k: nat {:trigger BufBit(after, k)} ::
      BufBit(after, k) == (BufBit(before, k) || (start <= k && Bit(value, k - start)))
  }

  /** `after` is `before` with the bits of `mask`, shifted to bit `start`, cleared. */
  ghost predicate ClearedAt(before: seq<Byte>, after: seq<Byte>, start: nat, mask: nat)
  {
    |after| == |before| &&
    forall k: nat {:trigger BufBit(after, k)} ::
      BufBit(after, k) == (BufBit(before, k) && !(start <= k && Bit(mask, k - start)))
  }

  /** `after` is `before` with the `width` bits at `start` replaced by `value`. */
  ghost predicate ReplacedAt(before: seq<Byte>, after: seq<Byte>, start: nat, width: nat, value: nat)
  {
    |after| == |before| &&
    forall k: nat {:trigger BufBit(after, k)} ::
      BufBit(after, k) == if start <= k < start + width then Bit(value, k - start) else BufBit(before, k)
  }

  /** `after` is `before` with `values` or-ed into the slots from `start` on, and nothing else changed. */
  ghost predicate SlotsOred(before: seq<Byte>, after: seq<Byte>, w: nat, start: nat, values: seq<nat>)
  {
    |after| == |before| &&
    forall s: nat :: Slot(after, w, s) == OredValue(before, w, start, values, s)
  }

  function OredValue(b: seq<Byte>, w: nat, start: nat, values: seq<nat>, s: nat): nat
  {
    if start <= s < start + |values| then Or(Slot(b, w, s), values[s - start]) else Slot(b, w, s)
  }

  // ----- bits of words, slots and stores

  lemma SlotBit(b: seq<Byte>, w: nat, i: nat, k: nat)
    ensures Bit(Slot(b, w, i), k) == (k < w && BufBit(b, i * w + k))
  {
    BitField(LeNat(b), i * w, w, k);
  }

  lemma WordBit(b: seq<Byte>, offset: nat, k: nat)
    requires offset + 8 <= |b|
    ensures Bit(LeNat(b[offset..offset + 8]), k) == (k < 64 && BufBit(b, 8 * offset + k))
  {
    BitLeNat(b[offset..offset + 8], k);
    BitLeNat(b, 8 * offset + k);
  }

  /** Slots do not overlap. */
  lemma SlotsDisjoint(s: nat, i: nat, w: nat, k: nat)
    requires k < w && s != i
    ensures s * w + k < i * w || s * w + k >= i * w + w
  {
    if s > i {
      MulMono(i + 1, s, w);
      assert (i + 1) * w == i * w + w;
    } else {
      MulMono(s + 1, i, w);
      assert (s + 1) * w == s * w + w;
    }
  }

  lemma OredBit(before: seq<Byte>, after: seq<Byte>, from: nat, w: nat, value: nat, at: nat)
    requires OredAt(before, after, from, value) && Fits(value, w)
    ensures BufBit(after, at) == (BufBit(before, at) || (from <= at < from + w && Bit(value, at - from)))
  {
    if at >= from + w { FitsBit(value, w, at - from); }
  }

  /** A value or-ed in at `i * w` changes slot `i` only. */
  lemma OredSlot(before: seq<Byte>, after: seq<Byte>, w: nat, i: nat, value: nat)
    requires OredAt(before, after, i * w, value) && Fits(value, w)
    ensures SlotsOred(before, after, w, i, [value])
  {
    forall s: nat
      ensures Slot(after, w, s) == if s == i then Or(Slot(before, w, s), value) else Slot(before, w, s)
    {
      var want := if s == i then Or(Slot(before, w, s), value) else Slot(before, w, s);
      forall k: nat ensures Bit(Slot(after, w, s), k) == Bit(want, k) {
        SlotBit(after, w, s, k);
        SlotBit(before, w, s, k);
        BitBitwise(OrOp, Slot(before, w, s), value, k);
        if k < w {
          OredBit(before, after, i * w, w, value, s * w + k);
          if s != i { SlotsDisjoint(s, i, w, k); }
        } else {
          FitsBit(value, w, k);
        }
      }
      BitExt(Slot(after, w, s), want);
    }
  }

  /** Where a slot of width up to 64 lies inside its buffer: the 8-byte loads stay in bounds. */
  lemma SlotInBuffer(index: nat, w: nat, size: nat)
    requires 1 <= w <= 64 && BufferSize(index + 1, w) <= size
    ensures 0 <= index * w && (index * w) / 8 + 8 <= size
    ensures w + (index * w) % 8 > 64 ==> (index * w) / 8 + 16 <= size
  {
    assert (index + 1) * w == index * w + w;
  }

  /** Width 0 is none: its buffer has no room for the one word that an access loads. */
  lemma NoRoomAtWidthZero(count: nat)
    ensures BufferSize(count, 0) < 8
  {
  }

  /** Widths up to 58 never straddle a word load. */
  lemma NarrowNeverStraddles(index: nat, w: nat)
    requires 1 <= w <= 58
    ensures w + (index * w) % 8 <= 64
  {
    if w == 58 {
      assert index * w == 2 * (29 * index);
    }
  }

  function LoadWord(buffer: array<Byte>, offset: nat): nat
    requires offset + 8 <= buffer.Length
    reads buffer
  {
    LeNat(buffer[offset..offset + 8])
  }

  /** `after` is `before` with the 8 bytes at `offset` replaced by `word`. */
  ghost predicate Stored(before: seq<Byte>, after: seq<Byte>, offset: nat, word: nat)
  {
    |after| == |before| &&
    forall k: nat {:trigger BufBit(after, k)} :: BufBit(after, k) ==
      (if 8 * offset <= k < 8 * offset + 64 then Bit(word, k - 8 * offset) else BufBit(before, k))
  }

  method StoreWord(buffer: array<Byte>, offset: nat, word: nat)
    requires offset + 8 <= buffer.Length
    modifies buffer
    ensures Stored(old(buffer[..]), buffer[..], offset, word)
  {
    var i := 0;
    while i < 8
      invariant 0 <= i <= 8
      invariant forall j :: 0 <= j < i ==> buffer[offset + j] == Field(word, 8 * j, 8)
      invariant forall j :: 0 <= j < buffer.Length && !(offset <= j < offset + i) ==> buffer[j] == old(buffer[j])
    {
      LowFits(Shr(word, 8 * i), 8);
      assert Pow2(8) == 256;
      buffer[offset + i] := Field(word, 8 * i, 8);
      i := i + 1;
    }
    forall k: nat
      ensures BufBit(buffer[..], k) ==
        if 8 * offset <= k < 8 * offset + 64 then Bit(word, k - 8 * offset) else BufBit(old(buffer[..]), k)
    {
      BitLeNat(buffer[..], k);
      BitLeNat(old(buffer[..]), k);
      if 8 * offset <= k < 8 * offset + 64 {
        var j := k / 8 - offset;
        BitField(word, 8 * j, 8, k % 8);
        assert 8 * j + k % 8 == k - 8 * offset;
      }
    }
  }

  /** `word |= bits`, in place. */
  method OrIntoWord(buffer: array<Byte>, offset: nat, bits: nat)
    requires offset + 8 <= buffer.Length
    requires Fits(bits, 64)
    modifies buffer
    ensures OredAt(old(buffer[..]), buffer[..], 8 * offset, bits)
  {
    var word := LoadWord(buffer, offset);
    StoreWord(buffer, offset, Or(word, bits));
    forall k: nat
      ensures BufBit(buffer[..], k) == (BufBit(old(buffer[..]), k) || (8 * offset <= k && Bit(bits, k - 8 * offset)))
    {
      if 8 * offset <= k {
        assert old(buffer[..])[offset..offset + 8] == old(buffer[offset..offset + 8]);
        WordBit(old(buffer[..]), offset, k - 8 * offset);
        BitBitwise(OrOp, word, bits, k - 8 * offset);
        if k >= 8 * offset + 64 { FitsBit(bits, 64, k - 8 * offset); }
      }
    }
  }

  /** Ors `value` in at bit `start`: into one word, or two when a wide value straddles the load. */
  method OrBits(buffer: array<Byte>, start: nat, width: nat, value: nat)
    requires 1 <= width <= 64 && Fits(value, width)
    requires start / 8 + 8 <= buffer.Length
    requires width + start % 8 > 64 ==> width > 58 && start / 8 + 16 <= buffer.Length
    modifies buffer
    ensures OredAt(old(buffer[..]), buffer[..], start, value)
  {
    var offset, remainder := start / 8, start % 8;
    ghost var before := buffer[..];
    if width > 58 {
      var overflow := width + remainder - 64;
      if overflow > 0 {
        FitsMore(value, width, 64);
        ShrFits(value, width - overflow, 64);
        OrIntoWord(buffer, offset + 8, Shr(value, width - overflow));
      }
    }
    ghost var middle := buffer[..];
    LowFits(Shl(value, remainder), 64);
    OrIntoWord(buffer, offset, Low(Shl(value, remainder), 64));
    OredInTwoWords(before, middle, buffer[..], start, width, value);
  }

  /** `word &= ~bits`, in place. */
  method ClearInWord(buffer: array<Byte>, offset: nat, bits: nat)
    requires offset + 8 <= buffer.Length
    requires Fits(bits, 64)
    modifies buffer
    ensures ClearedAt(old(buffer[..]), buffer[..], 8 * offset, bits)
  {
    var word := LoadWord(buffer, offset);
    var mask := Xor(bits, Mask(64));
    StoreWord(buffer, offset, And(word, mask));
    forall k: nat
      ensures BufBit(buffer[..], k) == (BufBit(old(buffer[..]), k) && !(8 * offset <= k && Bit(bits, k - 8 * offset)))
    {
      if 8 * offset <= k {
        assert old(buffer[..])[offset..offset + 8] == old(buffer[offset..offset + 8]);
        WordBit(old(buffer[..]), offset, k - 8 * offset);
        BitBitwise(AndOp, word, mask, k - 8 * offset);
        BitBitwise(XorOp, bits, Mask(64), k - 8 * offset);
        BitMask(64, k - 8 * offset);
        if k >= 8 * offset + 64 { FitsBit(bits, 64, k - 8 * offset); }
      }
    }
  }

  /** Clears the slot at bit `start`, then ors `value` in. */
  method ReplaceBits(buffer: array<Byte>, start: nat, width: nat, value: nat)
    requires 1 <= width <= 64 && Fits(value, width)
    requires start / 8 + 8 <= buffer.Length
    requires width + start % 8 > 64 ==> width > 58 && start / 8 + 16 <= buffer.Length
    modifies buffer
    ensures ReplacedAt(old(buffer[..]), buffer[..], start, width, value)
  {
    var offset, remainder := start / 8, start % 8;
    ghost var before := buffer[..];
    LowFits(Shl(Mask(width), remainder), 64);
    ClearInWord(buffer, offset, Low(Shl(Mask(width), remainder), 64));
    ghost var middle := buffer[..];
    if width > 58 {
      var overflow := width + remainder - 64;
      if overflow > 0 {
        FitsMore(Mask(overflow), overflow, 64);
        ClearInWord(buffer, offset + 8, Mask(overflow));
      }
    }
    ghost var cleared := buffer[..];
    ClearedInTwoWords(before, middle, cleared, start, width);
    OrBits(buffer, start, width, value);
    ClearedThenOred(before, cleared, buffer[..], start, width, value);
  }

  /** The `count` slots from `start` on, each with `baseline` added in the width of the output type. */
  function Decoded(b: seq<Byte>, w: nat, baseline: nat, outBits: nat, start: nat, count: nat): (r: seq<nat>)
    ensures |r| == count
  {
    seq<nat>(count, (j: nat) => Wrapped(Slot(b, w, start + j) + baseline, outBits))
  }

  /** Unsigned arithmetic of the output type. */
  function Wrapped(n: nat, outBits: nat): nat
  {
    n % Pow2(outBits)
  }

  // ----- reading 64 slots word by word

  /** The low `left` bits of `word` are the buffer's bits from `bit` on, and the others are zero. */
  ghost predicate WordHolds(word: nat, b: seq<Byte>, bit: nat, left: int)
  {
    forall j: nat {:trigger Bit(word, j)} :: Bit(word, j) == (j < left && BufBit(b, bit + j))
  }

  lemma NextSlot(s: nat, w: nat)
    ensures (s + 1) * w == s * w + w
  {
  }

  lemma BlockBegins(element: nat, w: nat, start: nat, size: nat, b: seq<Byte>)
    requires 1 <= w <= 32 && BufferSize(element + 64, w) <= size && 8 * start == element * w
    ensures start + 8 * w <= size && AtWord(element, 0, 0, w, start)
    ensures StartBit(element, w) == 8 * start && WordHolds(0, b, 8 * start, 0)
  {
    assert (element + 64) * w == element * w + 64 * w;
    EmptyWord(b, 8 * start);
  }

  /** The compile-time spill-over: how many bits of slot `position` of a block lie in the next word. */
  function SpillOver(position: nat, w: nat): nat
  {
    if (position * w) % 64 == 0 then 0 else ((position + 1) * w) % 64
  }

  /** How many slots the next word completes, and how many of its bits are left after them. */
  function WordSlots(spillover: nat, w: nat): nat
    requires 0 < w && spillover <= 64
  {
    (64 - spillover) / w + if spillover > 0 then 1 else 0
  }

  function WordLeft(spillover: nat, w: nat): nat
    requires 0 < w && spillover <= 64
  {
    (64 - spillover) % w
  }

  function StartBit(s: nat, w: nat): nat
  {
    s * w
  }

  /** Slots [element, element + position) are done after `k` of the block's words, from byte `start` on. */
  ghost predicate AtWord(element: nat, position: nat, k: nat, w: nat, start: nat)
  {
    && 1 <= w <= 32 && position <= 64 && k <= w && 8 * start == StartBit(element, w)
    && StartBit(element + position, w) <= 8 * (start + 8 * k) < StartBit(element + position, w) + w
  }

  lemma WordStep(element: nat, position: nat, k: nat, w: nat, start: nat)
    requires AtWord(element, position, k, w, start) && position < 64
    ensures
      var s, next, spillover := element + position, 8 * (start + 8 * k), SpillOver(position, w);
      && k < w && spillover < w
      && spillover == (if next == StartBit(s, w) then 0 else w - (next - StartBit(s, w)))
      && WordLeft(spillover, w) < w
      && StartBit(s + WordSlots(spillover, w), w) == next + 64 - WordLeft(spillover, w)
      && AtWord(element, position + WordSlots(spillover, w), k + 1, w, start)
  {
    assert (element + position) * w == element * w + position * w;
    Spillover(position, k, w);
    var spillover := SpillOver(position, w);
    BlockStep(element + position, w, StartBit(element + position, w), 8 * (start + 8 * k), spillover);
    var position' := position + WordSlots(spillover, w);
    assert (element + position') * w == element * w + position' * w;
    if position' > 64 { MulMono(65, position', w); }
  }

  lemma SpillNeedsWord(element: nat, position: nat, k: nat, w: nat, start: nat)
    requires AtWord(element, position, k, w, start) && StartBit(element + position, w) < 8 * (start + 8 * k)
    ensures k > 0
  {
    assert (element + position) * w == element * w + position * w;
  }

  lemma WholeBlock(element: nat, k: nat, w: nat, start: nat)
    requires AtWord(element, 64, k, w, start)
    ensures k == w
  {
    assert (element + 64) * w == element * w + 64 * w;
  }

  lemma Spillover(position: nat, k: nat, w: nat)
    requires 1 <= w <= 32 && position < 64 && k <= w
    requires position * w <= 64 * k < position * w + w
    ensures k < w
    ensures
      var left := 64 * k - position * w;
      SpillOver(position, w) == if left == 0 then 0 else w - left
  {
    if k == w { MulMono(position + 1, 64, w); }
    NextSlot(position, w);
    var bits, left := position * w, 64 * k - position * w;
    if left == 0 {
      DivModUnique(bits, 64, k, 0);
    } else {
      DivModUnique(bits, 64, k - 1, 64 - left);
      DivModUnique(bits + w, 64, k, w - left);
    }
  }

  lemma EmptyWord(b: seq<Byte>, bit: nat)
    ensures WordHolds(0, b, bit, 0)
  {
    forall j: nat ensures !Bit(0, j) { BitOfZero(j); }
  }

  lemma NothingMarked(out: nat, b: seq<Byte>, w: nat, element: nat, from: nat, value: nat)
    ensures Marked(out, out, b, w, element, from, from, value)
  {
  }

  lemma FreshWord(b: seq<Byte>, offset: nat)
    requires offset + 8 <= |b|
    ensures WordHolds(LeNat(b[offset..offset + 8]), b, 8 * offset, 64)
  {
    var word := LeNat(b[offset..offset + 8]);
    forall j: nat ensures Bit(word, j) == (j < 64 && BufBit(b, 8 * offset + j)) { WordBit(b, offset, j); }
  }

  /** A slot that lies wholly in the current word, and the word that remains. */
  lemma NextWholeSlot(b: seq<Byte>, word: nat, bit: nat, left: nat, w: nat, s: nat)
    requires WordHolds(word, b, bit, left) && w <= left && bit == s * w
    ensures Low(word, w) == Slot(b, w, s)
    ensures WordHolds(Shr(word, w), b, bit + w, left - w)
  {
    forall j: nat ensures Bit(Low(word, w), j) == Bit(Slot(b, w, s), j) {
      BitLow(word, w, j);
      SlotBit(b, w, s, j);
    }
    BitExt(Low(word, w), Slot(b, w, s));
    forall j: nat { BitShr(word, w, j); }
  }

  /** A slot whose low `left` bits are in the old word and whose rest is in the word at `offset`. */
  lemma SpilledSlot(b: seq<Byte>, remainder: nat, offset: nat, bit: nat, left: nat, w: nat, s: nat)
    requires WordHolds(remainder, b, bit, left) && 0 < left < w <= 32 && bit == s * w
    requires offset + 8 <= |b| && 8 * offset == bit + left
    ensures
      var word := LeNat(b[offset..offset + 8]);
      && Low(Or(remainder, Low(Shl(word, left), 64)), w) == Slot(b, w, s)
      && WordHolds(Shr(word, w - left), b, bit + w, 64 - (w - left))
  {
    var word := LeNat(b[offset..offset + 8]);
    var value := Low(Or(remainder, Low(Shl(word, left), 64)), w);
    forall j: nat ensures Bit(value, j) == Bit(Slot(b, w, s), j) {
      BitLow(Or(remainder, Low(Shl(word, left), 64)), w, j);
      BitBitwise(OrOp, remainder, Low(Shl(word, left), 64), j);
      BitLow(Shl(word, left), 64, j);
      BitShl(word, left, j);
      SlotBit(b, w, s, j);
      if left <= j { WordBit(b, offset, j - left); }
    }
    BitExt(value, Slot(b, w, s));
    var rest := Shr(word, w - left);
    forall j: nat ensures Bit(rest, j) == (j < 64 - (w - left) && BufBit(b, bit + w + j)) {
      BitShr(word, w - left, j);
      WordBit(b, offset, j + (w - left));
    }
  }

  lemma InnerEnd(bits: nat, w: nat, count: nat)
    requires w > 0 && count == bits / w
    ensures 0 <= bits - count * w < w && bits - count * w == bits % w
  {
  }

  /** The slots taken from one word leave fewer than `w` bits of it. */
  lemma BlockStep(s: nat, w: nat, bit: nat, next: nat, spillover: nat)
    requires 1 <= w <= 32 && bit == s * w && bit <= next < bit + w
    requires spillover == if next == bit then 0 else w - (next - bit)
    ensures (s + WordSlots(spillover, w)) * w == next + 64 - WordLeft(spillover, w)
  {
    var vc := (64 - spillover) / w;
    InnerEnd(64 - spillover, w, vc);
    assert (s + vc) * w == s * w + vc * w;
    assert (s + vc + 1) * w == s * w + vc * w + w;
  }

  lemma DecodedConcat(b: seq<Byte>, w: nat, baseline: nat, outBits: nat, start: nat, m: nat, n: nat)
    ensures Decoded(b, w, baseline, outBits, start, m + n) ==
      Decoded(b, w, baseline, outBits, start, m) + Decoded(b, w, baseline, outBits, start + m, n)
  {
    var whole := Decoded(b, w, baseline, outBits, start, m + n);
    var parts := Decoded(b, w, baseline, outBits, start, m) + Decoded(b, w, baseline, outBits, start + m, n);
    forall j | 0 <= j < m + n ensures whole[j] == parts[j] {
      if j >= m { assert start + m + (j - m) == start + j; }
    }
  }

  // ----- storing

  function BucketsRequired(elementCount: nat, bucketSize: nat): nat
    requires bucketSize > 0
  {
    elementCount / bucketSize + if elementCount % bucketSize != 0 then 1 else 0
  }

  lemma AlignedWord(element: nat, w: nat)
    requires element % 64 == 0
    ensures 8 * (element * w / 8) == element * w
  {
    assert element * w == 8 * (8 * (element / 64) * w);
  }

  lemma NextBlock(element: nat, w: nat)
    ensures (element + 64) * w == element * w + 64 * w
  {
  }

  /** What 32-bit subtraction of the baseline leaves to be stored. */
  function Offsets(values: seq<nat>, baseline: nat): (r: seq<nat>)
    ensures |r| == |values|
  {
    seq<nat>(|values|, i requires 0 <= i < |values| => (values[i] - baseline) % 0x1_0000_0000)
  }

  lemma NothingOred(b: seq<Byte>, w: nat, start: nat)
    ensures SlotsOred(b, b, w, start, [])
  {
  }

  lemma OredThenOred(a: seq<Byte>, b: seq<Byte>, c: seq<Byte>, w: nat, start: nat, xs: seq<nat>, ys: seq<nat>)
    requires SlotsOred(a, b, w, start, xs) && SlotsOred(b, c, w, start + |xs|, ys)
    ensures SlotsOred(a, c, w, start, xs + ys)
  {
    forall s: nat ensures Slot(c, w, s) == OredValue(a, w, start, xs + ys, s) {
      assert Slot(c, w, s) == OredValue(b, w, start + |xs|, ys, s);
      assert Slot(b, w, s) == OredValue(a, w, start, xs, s);
    }
  }

  /** Ors in a value that fits in one word. */
  method OrWhole(buffer: array<Byte>, word: nat, offset: nat, width: nat, value: nat)
    requires word + 8 <= buffer.Length && Fits(value, width) && offset + width <= 64
    modifies buffer
    ensures OredAt(old(buffer[..]), buffer[..], 8 * word + offset, value)
  {
    LowFits(Shl(value, offset), 64);
    OrIntoWord(buffer, word, Low(Shl(value, offset), 64));
    forall k: nat
      ensures BufBit(buffer[..], k) ==
        (BufBit(old(buffer[..]), k) || (8 * word + offset <= k && Bit(value, k - (8 * word + offset))))
    {
      var at := k - 8 * word;
      if 0 <= at {
        BitLow(Shl(value, offset), 64, at);
        BitShl(value, offset, at);
        if offset + width <= at { FitsBit(value, width, at - offset); }
      }
    }
  }

  /** Ors in a value whose low bits end `word` and whose other bits start the next word. */
  method OrAcross(buffer: array<Byte>, word: nat, offset: nat, width: nat, value: nat)
    requires word + 16 <= buffer.Length && Fits(value, width) && offset <= 64 && width <= 64
    modifies buffer
    ensures OredAt(old(buffer[..]), buffer[..], 8 * word + offset, value)
  {
    LowFits(Shl(value, offset), 64);
    OrIntoWord(buffer, word, Low(Shl(value, offset), 64));
    ghost var middle := buffer[..];
    FitsMore(value, width, 64);
    ShrFits(value, 64 - offset, 64);
    OrIntoWord(buffer, word + 8, Shr(value, 64 - offset));
    forall k: nat
      ensures BufBit(buffer[..], k) ==
        (BufBit(old(buffer[..]), k) || (8 * word + offset <= k && Bit(value, k - (8 * word + offset))))
    {
      var at := k - 8 * word;
      if 0 <= at {
        BitLow(Shl(value, offset), 64, at);
        BitShl(value, offset, at);
        if 64 <= at { BitShr(value, 64 - offset, at - 64); }
      }
    }
  }

  // ----- comparing 64 slots with a value

  /** `after` is `before` with bit j set for every slot `element + j`, from <= j < upto, that equals `value`. */
  ghost predicate Marked(
    before: nat, after: nat, b: seq<Byte>, w: nat, element: nat, from: nat, upto: nat, value: nat)
  {
    forall j: nat {:trigger Bit(after, j)} ::
      Bit(after, j) == (Bit(before, j) || (from <= j < upto && Slot(b, w, element + j) == value))
  }

  /** Marks are only added. */
  ghost predicate Kept(out: nat, marks: nat)
  {
    forall k: nat {:trigger Bit(marks, k)} :: Bit(out, k) ==> Bit(marks, k)
  }

  /** A slot that holds what the first slot of the mask holds is marked. */
  ghost predicate FirstMarked(marks: nat, mask: nat, b: seq<Byte>, w: nat, element: nat, j: nat)
  {
    Slot(b, w, element + j) == Field(mask, 0, w) ==> Bit(marks, j)
  }

  lemma KeptThenKept(out: nat, marks: nat, more: nat)
    requires Kept(out, marks) && Kept(marks, more)
    ensures Kept(out, more)
  {
    forall k: nat | Bit(out, k) ensures Bit(more, k) { assert Bit(marks, k); }
  }

  lemma MarkKeeps(out: nat, j: nat, equal: bool)
    ensures
      var marks := Or(out, Shl(if equal then 1 else 0, j));
      Kept(out, marks) && (equal ==> Bit(marks, j))
  {
    var bit := if equal then 1 else 0;
    forall k: nat | Bit(out, k) ensures Bit(Or(out, Shl(bit, j)), k) { BitBitwise(OrOp, out, Shl(bit, j), k); }
    if equal {
      BitBitwise(OrOp, out, Shl(1, j), j);
      BitShl(1, j, j);
    }
  }

  lemma MarkNext(before: nat, out: nat, b: seq<Byte>, w: nat, element: nat, from: nat, j: nat, value: nat, equal: bool)
    requires Marked(before, out, b, w, element, from, j, value) && from <= j
    requires equal == (Slot(b, w, element + j) == value)
    ensures Marked(before, Or(out, Shl(if equal then 1 else 0, j)), b, w, element, from, j + 1, value)
  {
    var bit := if equal then 1 else 0;
    var after := Or(out, Shl(bit, j));
    forall i: nat
      ensures Bit(after, i) == (Bit(before, i) || (from <= i < j + 1 && Slot(b, w, element + i) == value))
    {
      BitBitwise(OrOp, out, Shl(bit, j), i);
      BitShl(bit, j, i);
      if j < i { assert Pow2(1) == 2; FitsBit(bit, 1, i - j); }
    }
  }

  lemma MarkedThenMarked(
    a: nat, c: nat, d: nat, b: seq<Byte>, w: nat, element: nat, from: nat, mid: nat, upto: nat, value: nat)
    requires from <= mid <= upto
    requires Marked(a, c, b, w, element, from, mid, value) && Marked(c, d, b, w, element, mid, upto, value)
    ensures Marked(a, d, b, w, element, from, upto, value)
  {
  }

  /** Each of the word's whole slots of `mask` holds `value`. */
  ghost predicate MaskHolds(mask: nat, w: nat, value: nat)
    requires w > 0
  {
    forall i: nat :: i < 64 / w ==> Field(mask, i * w, w) == value
  }

  lemma {:induction false} ShrShr(n: nat, a: nat, b: nat)
    ensures Shr(Shr(n, a), b) == Shr(n, a + b)
  {
    if a > 0 { ShrShr(n / 2, a - 1, b); }
  }

  /** A field of `a ^ b` is zero exactly where `a` and `b` agree. */
  lemma XorIsZero(a: nat, b: nat, s: nat, l: nat)
    ensures Field(Xor(a, b), s, l) == 0 <==> Field(a, s, l) == Field(b, s, l)
  {
    var x := Field(Xor(a, b), s, l);
    forall i: nat ensures Bit(x, i) == (Bit(Field(a, s, l), i) != Bit(Field(b, s, l), i)) {
      BitField(Xor(a, b), s, l, i);
      BitField(a, s, l, i);
      BitField(b, s, l, i);
      BitBitwise(XorOp, a, b, s + i);
    }
    if x == 0 {
      forall i: nat ensures Bit(Field(a, s, l), i) == Bit(Field(b, s, l), i) { BitOfZero(i); }
      BitExt(Field(a, s, l), Field(b, s, l));
    } else if Field(a, s, l) == Field(b, s, l) {
      forall i: nat ensures Bit(x, i) == Bit(0, i) { BitOfZero(i); }
      BitExt(x, 0);
    }
  }

  /** The `i`-th slot left in a word. */
  lemma SlotOfWord(b: seq<Byte>, word: nat, bit: nat, left: nat, w: nat, s: nat, i: nat)
    requires WordHolds(word, b, bit, left) && bit == s * w && i * w + w <= left
    ensures Field(word, i * w, w) == Slot(b, w, s + i)
  {
    assert (s + i) * w == s * w + i * w;
    forall j: nat ensures Bit(Field(word, i * w, w), j) == Bit(Slot(b, w, s + i), j) {
      BitField(word, i * w, w, j);
      SlotBit(b, w, s + i, j);
    }
    BitExt(Field(word, i * w, w), Slot(b, w, s + i));
  }

  lemma RestOfWord(b: seq<Byte>, word: nat, bit: nat, left: nat, used: nat)
    requires WordHolds(word, b, bit, left) && used <= left <= 64
    ensures WordHolds(if used == 64 then 0 else Shr(word, used), b, bit + used, left - used)
  {
    var rest := if used == 64 then 0 else Shr(word, used);
    forall j: nat ensures Bit(rest, j) == (j < left - used && BufBit(b, bit + used + j)) {
      BitShr(word, used, j);
      BitOfZero(j);
    }
  }

  lemma MaskSlotInRange(i: nat, count: nat, left: nat, w: nat)
    requires w > 0 && count == left / w && left <= 64 && i < count
    ensures i < 64 / w
  {
    var quotient := 64 / w;
    InnerEnd(left, w, count);
    InnerEnd(64, w, quotient);
    if quotient < count { MulMono(quotient + 1, count, w); }
  }

  /** `value` in each of the first `n` slots of a word, as far as it fits there. */
  function Repeated(value: nat, w: nat, n: nat): nat
  {
    if n == 0 then 0 else Low(Or(Repeated(value, w, n - 1), Shl(value, (n - 1) * w)), 64)
  }

  lemma RepeatedNext(value: nat, w: nat, n: nat, at: nat)
    ensures Bit(Repeated(value, w, n + 1), at) ==
      (at < 64 && (Bit(Repeated(value, w, n), at) || (n * w <= at && Bit(value, at - n * w))))
  {
    var before, shifted := Repeated(value, w, n), Shl(value, n * w);
    BitLow(Or(before, shifted), 64, at);
    BitBitwise(OrOp, before, shifted, at);
    BitShl(value, n * w, at);
  }

  lemma {:induction false} RepeatedBits(value: nat, w: nat, n: nat, i: nat, k: nat)
    requires Fits(value, w) && w > 0 && n * w <= 64 && k < w
    ensures Bit(Repeated(value, w, n), i * w + k) == (i < n && Bit(value, k))
    decreases n
  {
    hide Fits, Bit, Repeated;
    var at := i * w + k;
    if n == 0 {
      NothingRepeated(value, w, at);
    } else {
      NextRepeated(w, n, i, k);
      RepeatedBits(value, w, n - 1, i, k);
      RepeatedNext(value, w, n - 1, at);
      if i >= n { FitsBit(value, w, at - (n - 1) * w); }
    }
  }

  lemma NothingRepeated(value: nat, w: nat, at: nat)
    ensures !Bit(Repeated(value, w, 0), at)
  {
    BitOfZero(at);
  }

  /** Where bit `k` of slot `i` is, as seen from slot n - 1. */
  lemma NextRepeated(w: nat, n: nat, i: nat, k: nat)
    requires n > 0 && w > 0 && n * w <= 64 && k < w
    ensures (n - 1) * w <= 64
    ensures i < n - 1 ==> i * w + k < (n - 1) * w
    ensures i == n - 1 ==> i * w + k < 64 && i * w + k - (n - 1) * w == k
    ensures i >= n ==> i * w + k - (n - 1) * w >= w
  {
    assert n * w == (n - 1) * w + w && (i + 1) * w == i * w + w;
    if i < n - 1 { MulMono(i + 1, n - 1, w); }
    if i >= n { MulMono(n, i, w); }
  }

  lemma RepeatedField(value: nat, w: nat, n: nat, i: nat)
    requires Fits(value, w) && w > 0 && n * w <= 64 && i < n
    ensures Field(Repeated(value, w, n), i * w, w) == value
  {
    hide Fits, Field, Repeated;
    var mask := Repeated(value, w, n);
    forall k: nat ensures Bit(Field(mask, i * w, w), k) == Bit(value, k) {
      BitField(mask, i * w, w, k);
      if k < w { RepeatedBits(value, w, n, i, k); } else { FitsBit(value, w, k); }
    }
    BitExt(Field(mask, i * w, w), value);
  }

  lemma FieldFits(mask: nat, s: nat, w: nat)
    ensures Fits(Field(mask, s, w), w)
  {
    LowFits(Shr(mask, s), w);
  }

  /** The mask repeats `value` in every whole slot exactly if it fits a slot. */
  lemma RepeatedHolds(value: nat, w: nat)
    requires 1 <= w <= 32
    ensures MaskHolds(Repeated(value, w, 64 / w), w, value) <==> Fits(value, w)
  {
    hide Fits, Field, Repeated;
    var n := 64 / w;
    var mask := Repeated(value, w, n);
    InnerEnd(64, w, n);
    if Fits(value, w) {
      forall i: nat | i < n ensures Field(mask, i * w, w) == value { RepeatedField(value, w, n, i); }
    } else {
      FieldFits(mask, 0 * w, w);
      assert 0 < n && Field(mask, 0 * w, w) != value;
    }
  }

  lemma RoomForBits(length: nat, loopCount: nat, size: nat)
    requires BufferSize(length, 1) <= size && loopCount == length / 64
    ensures BufferSize(64 * loopCount, 1) <= size && length <= 8 * size
  {
  }

  /** The first slot of the mask holds the low bits of any value. */
  lemma {:induction false} FirstRepeated(value: nat, w: nat, n: nat)
    requires 0 < w <= 64 && n > 0
    ensures Field(Repeated(value, w, n), 0, w) == Low(value, w)
  {
    hide Bit, Field, Low, Repeated;
    forall k: nat ensures Bit(Field(Repeated(value, w, n), 0, w), k) == Bit(Low(value, w), k) {
      BitField(Repeated(value, w, n), 0, w, k);
      BitLow(value, w, k);
      if k < w { FirstRepeatedBit(value, w, n, k); }
    }
    BitExt(Field(Repeated(value, w, n), 0, w), Low(value, w));
  }

  lemma {:induction false} FirstRepeatedBit(value: nat, w: nat, n: nat, k: nat)
    requires k < w <= 64 && n > 0
    ensures Bit(Repeated(value, w, n), k) == Bit(value, k)
  {
    hide Bit, Repeated;
    RepeatedNext(value, w, n - 1, k);
    if n == 1 {
      NothingRepeated(value, w, k);
      assert (n - 1) * w == 0;
    } else {
      FirstRepeatedBit(value, w, n - 1, k);
      MulMono(1, n - 1, w);
    }
  }

  lemma ZeroBuffer(zero: seq<Byte>, k: nat)
    requires forall x :: x in zero ==> x == 0
    ensures !BufBit(zero, k)
  {
    BitLeNat(zero, k);
    if k < 8 * |zero| { assert zero[k / 8] in zero; }
    BitOfZero(k % 8);
  }

  lemma ZeroSlot(zero: seq<Byte>, w: nat, i: nat)
    requires forall x :: x in zero ==> x == 0
    ensures Slot(zero, w, i) == 0
  {
    forall k: nat ensures Bit(Slot(zero, w, i), k) == Bit(0, k) {
      SlotBit(zero, w, i, k);
      ZeroBuffer(zero, i * w + k);
      BitOfZero(k);
    }
    BitExt(Slot(zero, w, i), 0);
  }

  /** Bits i < upto of the bit vector now also mark the slots start + i that equal `value`. */
  ghost predicate MarkedRows(
    before: seq<Byte>, after: seq<Byte>, b: seq<Byte>, w: nat, start: nat, upto: nat, value: nat)
  {
    |after| == |before| &&
    forall i: nat {:trigger BufBit(after, i)} ::
      BufBit(after, i) == (BufBit(before, i) || (i < upto && Slot(b, w, start + i) == value))
  }

  lemma StoredMarks(
    first: seq<Byte>, before: seq<Byte>, after: seq<Byte>, b: seq<Byte>, w: nat, start: nat, i: nat, value: nat,
    out: nat, marks: nat)
    requires MarkedRows(first, before, b, w, start, 64 * i, value) && 8 * i + 8 <= |before|
    requires out == LeNat(before[8 * i..8 * i + 8]) && Marked(out, marks, b, w, start + 64 * i, 0, 64, value)
    requires Stored(before, after, 8 * i, marks)
    ensures MarkedRows(first, after, b, w, start, 64 * (i + 1), value)
  {
    forall k: nat
      ensures BufBit(after, k) == (BufBit(first, k) || (k < 64 * (i + 1) && Slot(b, w, start + k) == value))
    {
      if 64 * i <= k {
        WordBit(before, 8 * i, k - 64 * i);
        assert start + 64 * i + (k - 64 * i) == start + k;
      }
    }
  }

  /** `bits::setBit` */
  method SetBit(n: nat, bitmap: array<Byte>)
    requires n / 8 < bitmap.Length
    modifies bitmap
    ensures forall k: nat :: BufBit(bitmap[..], k) == (k == n || BufBit(old(bitmap[..]), k))
  {
    var byte: nat := bitmap[n / 8];
    var changed := Or(byte, Shl(1, n % 8));
    forall k: nat ensures Bit(changed, k) == (Bit(byte, k) || k == n % 8) {
      BitBitwise(OrOp, byte, Shl(1, n % 8), k);
      BitShl(1, n % 8, k);
      if n % 8 < k { assert Pow2(1) == 2; FitsBit(1, 1, k - n % 8); }
    }
    assert Pow2(8) == 256;
    forall k: nat | 8 <= k ensures !Bit(changed, k) { FitsBit(byte, 8, k); }
    BitsFit(changed, 8);
    bitmap[n / 8] := changed;
    forall k: nat ensures BufBit(bitmap[..], k) == (k == n || BufBit(old(bitmap[..]), k)) {
      BitLeNat(bitmap[..], k);
      BitLeNat(old(bitmap[..]), k);
    }
  }

  class FixedBitArray {
    const buffer: array<Byte>
    const bitWidth: nat

    constructor (buffer: array<Byte>, bitWidth: nat)
      requires 1 <= bitWidth <= 64
      ensures this.buffer == buffer && this.bitWidth == bitWidth
    {
      this.buffer := buffer;
      this.bitWidth := bitWidth;
    }

    predicate Holds(count: nat)
    {
      1 <= bitWidth <= 64 && BufferSize(count, bitWidth) <= buffer.Length
    }

    method Get(index: nat) returns (value: nat)
      requires Holds(index + 1)
      ensures value == Slot(buffer[..], bitWidth, index)
    {
      var bits := index * bitWidth;
      var offset, remainder := bits / 8, bits % 8;
      SlotInBuffer(index, bitWidth, buffer.Length);
      var word := LoadWord(buffer, offset);
      if bitWidth > 58 {
        var overflow := bitWidth + remainder - 64;
        if overflow > 0 {
          var nextWord := LoadWord(buffer, offset + 8);
          value := Low(Or(Shr(word, remainder), Low(Shl(nextWord, bitWidth - overflow), 64)), bitWidth);
          forall k: nat ensures Bit(value, k) == Bit(Slot(buffer[..], bitWidth, index), k) {
            SlotBit(buffer[..], bitWidth, index, k);
            BitLow(Or(Shr(word, remainder), Low(Shl(nextWord, bitWidth - overflow), 64)), bitWidth, k);
            BitBitwise(OrOp, Shr(word, remainder), Low(Shl(nextWord, bitWidth - overflow), 64), k);
            BitShr(word, remainder, k);
            BitLow(Shl(nextWord, bitWidth - overflow), 64, k);
            BitShl(nextWord, bitWidth - overflow, k);
            WordBit(buffer[..], offset, k + remainder);
            if bitWidth - overflow <= k { WordBit(buffer[..], offset + 8, k - (bitWidth - overflow)); }
            assert buffer[..][offset..offset + 8] == buffer[offset..offset + 8];
            assert buffer[..][offset + 8..offset + 16] == buffer[offset + 8..offset + 16];
          }
          BitExt(value, Slot(buffer[..], bitWidth, index));
          return;
        }
      } else {
        NarrowNeverStraddles(index, bitWidth);
      }
      value := Low(Shr(word, remainder), bitWidth);
      OneWordSlot(buffer[..], bitWidth, index);
      assert buffer[..][offset..offset + 8] == buffer[offset..offset + 8];
    }

    method Get32(index: nat) returns (value: nat)
      requires Holds(index + 1) && bitWidth <= 32
      ensures value == Slot(buffer[..], bitWidth, index)
    {
      var bits := index * bitWidth;
      var offset, remainder := bits / 8, bits % 8;
      SlotInBuffer(index, bitWidth, buffer.Length);
      var word := LoadWord(buffer, offset);
      value := Low(Shr(word, remainder), bitWidth);
      OneWordSlot(buffer[..], bitWidth, index);
      assert buffer[..][offset..offset + 8] == buffer[offset..offset + 8];
    }

    method Set(index: nat, value: nat)
      requires Holds(index + 1) && Fits(value, bitWidth)
      modifies buffer
      ensures OredAt(old(buffer[..]), buffer[..], index * bitWidth, value)
      ensures SlotsOred(old(buffer[..]), buffer[..], bitWidth, index, [value])
    {
      SlotInBuffer(index, bitWidth, buffer.Length);
      if bitWidth <= 58 { NarrowNeverStraddles(index, bitWidth); }
      OrBits(buffer, index * bitWidth, bitWidth, value);
      OredSlot(old(buffer[..]), buffer[..], bitWidth, index, value);
    }

    method ZeroAndSet(index: nat, value: nat)
      requires Holds(index + 1) && Fits(value, bitWidth)
      modifies buffer
      ensures forall s: nat ::
        Slot(buffer[..], bitWidth, s) == (if s == index then value else Slot(old(buffer[..]), bitWidth, s))
    {
      SlotInBuffer(index, bitWidth, buffer.Length);
      if bitWidth <= 58 { NarrowNeverStraddles(index, bitWidth); }
      ReplaceBits(buffer, index * bitWidth, bitWidth, value);
      ReplacedSlot(old(buffer[..]), buffer[..], bitWidth, index, value);
    }

    /** The `count` slots that remain whole in the current word. */
    method TakeWholeSlots(
        word: nat, count: nat, baseline: nat, outBits: nat, ghost b: seq<Byte>, ghost bit: nat, ghost left: nat,
          ghost s: nat)
      returns (values: seq<nat>, rest: nat)
      requires bitWidth >= 1 && WordHolds(word, b, bit, left) && bit == s * bitWidth && count * bitWidth <= left
      ensures values == Decoded(b, bitWidth, baseline, outBits, s, count)
      ensures WordHolds(rest, b, bit + count * bitWidth, left - count * bitWidth)
    {
      values, rest := [], word;
      for i := 0 to count
        invariant bit + i * bitWidth == (s + i) * bitWidth && i * bitWidth <= left
        invariant WordHolds(rest, b, bit + i * bitWidth, left - i * bitWidth)
        invariant values == Decoded(b, bitWidth, baseline, outBits, s, i)
      {
        MulMono(i + 1, count, bitWidth);
        NextSlot(i, bitWidth);
        NextSlot(s + i, bitWidth);
        NextWholeSlot(b, rest, bit + i * bitWidth, left - i * bitWidth, bitWidth, s + i);
        values := values + [Wrapped(Low(rest, bitWidth) + baseline, outBits)];
        rest := Shr(rest, bitWidth);
      }
    }

    /** The slots completed by the next word load: one that spilled over, then the whole ones. */
    method NextWordSlots(
        word: nat, nextWord: nat, spillover: nat, baseline: nat, outBits: nat, ghost bit: nat, ghost s: nat)
      returns (values: seq<nat>, newWord: nat)
      requires 1 <= bitWidth <= 32 && nextWord + 8 <= buffer.Length
      requires bit == StartBit(s, bitWidth) && bit <= 8 * nextWord < bit + bitWidth
      requires spillover == if 8 * nextWord == bit then 0 else bitWidth - (8 * nextWord - bit)
      requires WordHolds(word, buffer[..], bit, 8 * nextWord - bit)
      ensures values == Decoded(buffer[..], bitWidth, baseline, outBits, s, WordSlots(spillover, bitWidth))
      ensures
        var left := WordLeft(spillover, bitWidth);
        WordHolds(newWord, buffer[..], 8 * nextWord + 64 - left, left)
    {
      hide WordHolds, Low, Shl;
      newWord := LoadWord(buffer, nextWord);
      assert buffer[..][nextWord..nextWord + 8] == buffer[nextWord..nextWord + 8];
      var w, valueCount := bitWidth, (64 - spillover) / bitWidth;
      InnerEnd(64 - spillover, w, valueCount);
      if spillover > 0 {
        SpilledSlot(buffer[..], word, nextWord, bit, 8 * nextWord - bit, w, s);
        values := [Wrapped(Low(Or(word, Low(Shl(newWord, w - spillover), 64)), w) + baseline, outBits)];
        newWord := Shr(newWord, spillover);
        NextSlot(s, w);
        var taken;
        taken, newWord :=
          TakeWholeSlots(newWord, valueCount, baseline, outBits, buffer[..], bit + w, 64 - spillover, s + 1);
        DecodedConcat(buffer[..], w, baseline, outBits, s, 1, valueCount);
        values := values + taken;
      } else {
        FreshWord(buffer[..], nextWord);
        values, newWord := TakeWholeSlots(newWord, valueCount, baseline, outBits, buffer[..], bit, 64, s);
      }
    }

    /** 64 slots that start on a word boundary, one word load per 64 bits. */
    method BulkGetBlock(element: nat, start: nat, baseline: nat, outBits: nat) returns (values: seq<nat>, nextWord: nat)
      requires Holds(element + 64) && bitWidth <= 32 && 8 * start == element * bitWidth
      ensures values == Decoded(buffer[..], bitWidth, baseline, outBits, element, 64)
      ensures nextWord == start + 8 * bitWidth
    {
      hide WordHolds, BufferSize, StartBit, SpillOver, Slot, Wrapped;
      var w := bitWidth;
      values, nextWord := [], start;
      var word: nat, position: nat := 0, 0;
      ghost var k := 0;
      BlockBegins(element, w, start, buffer.Length, buffer[..]);
      while position != 64
        invariant AtWord(element, position, k, w, start) && nextWord == start + 8 * k
        invariant WordHolds(word, buffer[..], StartBit(element + position, w),
          8 * nextWord - StartBit(element + position, w))
        invariant values == Decoded(buffer[..], w, baseline, outBits, element, position)
        decreases 64 - position
      {
        WordStep(element, position, k, w, start);
        var spillover := SpillOver(position, w);
        var taken;
        taken, word :=
          NextWordSlots(word, nextWord, spillover, baseline, outBits, StartBit(element + position, w),
            element + position);
        values := values + taken;
        DecodedConcat(buffer[..], w, baseline, outBits, element, position, |taken|);
        position := position + WordSlots(spillover, w);
        nextWord, k := nextWord + 8, k + 1;
      }
      WholeBlock(element, k, w, start);
    }

    /** Slots [start, start + length), each plus `baseline` modulo the output width. */
    method BulkGet32(start: nat, length: nat, baseline: nat, outBits: nat) returns (values: seq<nat>)
      requires Holds(start + length) && bitWidth <= 32
      ensures values == Decoded(buffer[..], bitWidth, baseline, outBits, start, length)
    {
      hide BufferSize, Slot, Wrapped;
      values := [];
      var alignedStart := BucketsRequired(start, 64) * 64;
      var head := if start + length < alignedStart then start + length else alignedStart;
      for i := start to head
        invariant values == Decoded(buffer[..], bitWidth, baseline, outBits, start, i - start)
      {
        HoldsMono(i + 1, start + length);
        var value := Get32(i);
        values := values + [Wrapped(value + baseline, outBits)];
      }
      if start + length < alignedStart { return; }
      var loopCount := (length - (alignedStart - start)) / 64;
      var nextWord := alignedStart * bitWidth / 8;
      AlignedWord(alignedStart, bitWidth);
      for i := 0 to loopCount
        invariant 8 * nextWord == (alignedStart + 64 * i) * bitWidth
        invariant values == Decoded(buffer[..], bitWidth, baseline, outBits, start, alignedStart + 64 * i - start)
      {
        var element := alignedStart + 64 * i;
        HoldsMono(element + 64, start + length);
        var block;
        block, nextWord := BulkGetBlock(element, nextWord, baseline, outBits);
        NextBlock(element, bitWidth);
        DecodedConcat(buffer[..], bitWidth, baseline, outBits, start, element - start, 64);
        values := values + block;
      }
      for i := alignedStart + 64 * loopCount to start + length
        invariant values == Decoded(buffer[..], bitWidth, baseline, outBits, start, i - start)
      {
        HoldsMono(i + 1, start + length);
        var value := Get32(i);
        values := values + [Wrapped(value + baseline, outBits)];
      }
    }

    lemma HoldsMono(m: nat, n: nat)
      requires Holds(n) && m <= n
      ensures Holds(m)
    {
      MulMono(m, n, bitWidth);
    }

    method Set32(index: nat, value: nat)
      requires Holds(index + 1) && bitWidth <= 32 && Fits(value, bitWidth)
      modifies buffer
      ensures SlotsOred(old(buffer[..]), buffer[..], bitWidth, index, [value])
    {
      var bits := index * bitWidth;
      SlotInBuffer(index, bitWidth, buffer.Length);
      OrWhole(buffer, bits / 8, bits % 8, bitWidth, value);
      OredSlot(old(buffer[..]), buffer[..], bitWidth, index, value);
    }

    /** Stores the value whose slot began in the word at `nextWord`, if there is one. */
    method StoreSpillover(values: seq<nat>, nextWord: int, spillover: nat, ghost bit: nat, ghost s: nat)
      returns (next: nat)
      requires 1 <= bitWidth <= 32 && -8 <= nextWord && nextWord + 16 <= buffer.Length
      requires forall v :: v in values ==> Fits(v, bitWidth)
      requires spillover <= 64 && |values| == WordSlots(spillover, bitWidth)
      requires bit == StartBit(s, bitWidth) && bit <= 8 * (nextWord + 8) < bit + bitWidth
      requires spillover == if 8 * (nextWord + 8) == bit then 0 else bitWidth - (8 * (nextWord + 8) - bit)
      requires spillover > 0 ==> 0 <= nextWord
      modifies buffer
      ensures next == if spillover > 0 then 1 else 0
      ensures next <= |values| && SlotsOred(old(buffer[..]), buffer[..], bitWidth, s, values[..next])
      ensures 8 * (nextWord + 8) + spillover == (s + next) * bitWidth
    {
      var w := bitWidth;
      next := 0;
      if spillover > 0 {
        OrAcross(buffer, nextWord, 64 - w + spillover, w, values[0]);
        OredSlot(old(buffer[..]), buffer[..], w, s, values[0]);
        next := 1;
        NextSlot(s, w);
      } else {
        NothingOred(buffer[..], w, s);
      }
      assert values[..next] == if spillover > 0 then [values[0]] else [];
    }

    /** Stores the values whose slots are completed by the word after `nextWord`. */
    method NextWordStores(values: seq<nat>, nextWord: int, spillover: nat, ghost bit: nat, ghost s: nat)
      requires 1 <= bitWidth <= 32 && -8 <= nextWord && nextWord + 16 <= buffer.Length
      requires forall v :: v in values ==> Fits(v, bitWidth)
      requires spillover <= 64 && |values| == WordSlots(spillover, bitWidth)
      requires bit == StartBit(s, bitWidth) && bit <= 8 * (nextWord + 8) < bit + bitWidth
      requires spillover == if 8 * (nextWord + 8) == bit then 0 else bitWidth - (8 * (nextWord + 8) - bit)
      requires spillover > 0 ==> 0 <= nextWord
      modifies buffer
      ensures SlotsOred(old(buffer[..]), buffer[..], bitWidth, s, values)
    {
      var w, valueCount := bitWidth, (64 - spillover) / bitWidth;
      hide SlotsOred, Fits;
      var word := nextWord + 8;
      var next := StoreSpillover(values, nextWord, spillover, bit, s);
      ghost var from := next;
      InnerEnd(64 - spillover, w, valueCount);
      var offset := spillover;
      for i := 0 to valueCount
        invariant next == from + i && offset == spillover + i * w
        invariant 8 * word + offset == (s + next) * w
        invariant SlotsOred(old(buffer[..]), buffer[..], w, s, values[..next])
      {
        MulMono(i + 1, valueCount, w);
        NextSlot(i, w);
        NextSlot(s + next, w);
        ghost var before := buffer[..];
        OrWhole(buffer, word, offset, w, values[next]);
        OredSlot(before, buffer[..], w, s + next, values[next]);
        OredThenOred(old(buffer[..]), before, buffer[..], w, s, values[..next], [values[next]]);
        assert values[..next + 1] == values[..next] + [values[next]];
        offset := offset + w;
        next := next + 1;
      }
      assert values[..next] == values;
    }

    /** 64 values stored from a word boundary on. */
    method BulkSetBlock(element: nat, start: nat, values: seq<nat>)
      requires Holds(element + 64) && bitWidth <= 32 && 8 * start == element * bitWidth
      requires |values| == 64 && forall v :: v in values ==> Fits(v, bitWidth)
      modifies buffer
      ensures SlotsOred(old(buffer[..]), buffer[..], bitWidth, element, values)
    {
      hide BufferSize, StartBit, SpillOver, SlotsOred;
      var w := bitWidth;
      var nextWord, position: nat := start - 8, 0;
      ghost var k := 0;
      BlockBegins(element, w, start, buffer.Length, buffer[..]);
      NothingOred(buffer[..], w, element);
      while position != 64
        invariant AtWord(element, position, k, w, start) && nextWord == start + 8 * k - 8
        invariant SlotsOred(old(buffer[..]), buffer[..], w, element, values[..position])
        decreases 64 - position
      {
        WordStep(element, position, k, w, start);
        var spillover := SpillOver(position, w);
        var count := WordSlots(spillover, w);
        if spillover > 0 { SpillNeedsWord(element, position, k, w, start); }
        ghost var before := buffer[..];
        var batch := values[position..position + count];
        NextWordStores(batch, nextWord, spillover, StartBit(element + position, w), element + position);
        OredThenOred(old(buffer[..]), before, buffer[..], w, element, values[..position], batch);
        assert values[..position + count] == values[..position] + batch;
        position := position + count;
        nextWord, k := nextWord + 8, k + 1;
      }
      assert values[..64] == values;
    }

    /** Ors `values`, less the baseline, into slots [start, start + |values|). */
    method BulkSet32(start: nat, values: seq<nat>, baseline: nat)
      requires Holds(start + |values|) && bitWidth <= 32
      requires forall v :: v in Offsets(values, baseline) ==> Fits(v, bitWidth)
      modifies buffer
      ensures SlotsOred(old(buffer[..]), buffer[..], bitWidth, start, Offsets(values, baseline))
    {
      hide SlotsOred, Slot, BufferSize, Fits;
      var length, offsets := |values|, Offsets(values, baseline);
      var alignedStart := BucketsRequired(start, 64) * 64;
      var head := if start + length < alignedStart then start + length else alignedStart;
      NothingOred(buffer[..], bitWidth, start);
      for i := start to head
        invariant SlotsOred(old(buffer[..]), buffer[..], bitWidth, start, offsets[..i - start])
      {
        SetNext(i, start, offsets, old(buffer[..]));
      }
      if start + length < alignedStart {
        assert offsets[..length] == offsets;
        return;
      }
      var loopCount := (length - (alignedStart - start)) / 64;
      SetBlocks(alignedStart, loopCount, start, offsets, old(buffer[..]));
      for i := alignedStart + 64 * loopCount to start + length
        invariant SlotsOred(old(buffer[..]), buffer[..], bitWidth, start, offsets[..i - start])
      {
        SetNext(i, start, offsets, old(buffer[..]));
      }
      assert offsets[..length] == offsets;
    }

    method SetNextBlock(element: nat, nextWord: nat, start: nat, offsets: seq<nat>, ghost first: seq<Byte>)
      requires start <= element && element + 64 <= start + |offsets| && 8 * nextWord == element * bitWidth
      requires Holds(start + |offsets|) && bitWidth <= 32
      requires forall v :: v in offsets ==> Fits(v, bitWidth)
      requires SlotsOred(first, buffer[..], bitWidth, start, offsets[..element - start])
      modifies buffer
      ensures SlotsOred(first, buffer[..], bitWidth, start, offsets[..element + 64 - start])
    {
      HoldsMono(element + 64, start + |offsets|);
      ghost var before := buffer[..];
      var done := element - start;
      var block := offsets[done..done + 64];
      BulkSetBlock(element, nextWord, block);
      OredThenOred(first, before, buffer[..], bitWidth, start, offsets[..done], block);
      assert offsets[..done + 64] == offsets[..done] + block;
    }

    /** The word-at-a-time middle part of `BulkSet32`. */
    method SetBlocks(alignedStart: nat, loopCount: nat, start: nat, offsets: seq<nat>, ghost first: seq<Byte>)
      requires alignedStart % 64 == 0 && start <= alignedStart && alignedStart + 64 * loopCount <= start + |offsets|
      requires Holds(start + |offsets|) && bitWidth <= 32
      requires forall v :: v in offsets ==> Fits(v, bitWidth)
      requires SlotsOred(first, buffer[..], bitWidth, start, offsets[..alignedStart - start])
      modifies buffer
      ensures SlotsOred(first, buffer[..], bitWidth, start, offsets[..alignedStart + 64 * loopCount - start])
    {
      hide SlotsOred, Slot, BufferSize, Fits;
      var nextWord := alignedStart * bitWidth / 8;
      AlignedWord(alignedStart, bitWidth);
      for i := 0 to loopCount
        invariant 8 * nextWord == (alignedStart + 64 * i) * bitWidth
        invariant SlotsOred(first, buffer[..], bitWidth, start, offsets[..alignedStart + 64 * i - start])
      {
        var element := alignedStart + 64 * i;
        SetNextBlock(element, nextWord, start, offsets, first);
        NextBlock(element, bitWidth);
        nextWord := nextWord + 8 * bitWidth;
      }
    }

    /** One step of the non-bulk loops of `BulkSet32`. */
    method SetNext(i: nat, start: nat, offsets: seq<nat>, ghost first: seq<Byte>)
      requires start <= i < start + |offsets| && Holds(start + |offsets|) && bitWidth <= 32
      requires forall v :: v in offsets ==> Fits(v, bitWidth)
      requires SlotsOred(first, buffer[..], bitWidth, start, offsets[..i - start])
      modifies buffer
      ensures SlotsOred(first, buffer[..], bitWidth, start, offsets[..i + 1 - start])
    {
      HoldsMono(i + 1, start + |offsets|);
      ghost var before := buffer[..];
      Set32(i, offsets[i - start]);
      OredThenOred(first, before, buffer[..], bitWidth, start, offsets[..i - start], [offsets[i - start]]);
      assert offsets[..i + 1 - start] == offsets[..i - start] + [offsets[i - start]];
    }

    /** Compares the slots completed by the next word load with `value` and marks the equal ones in `out`. */
    method NextWordEquals(
        word: nat, nextWord: nat, spillover: nat, value: nat, mask: nat, position: nat, out: nat,
        ghost bit: nat, ghost element: nat)
      returns (marks: nat, nextSpill: nat)
      requires 1 <= bitWidth <= 32 && nextWord + 8 <= buffer.Length
      requires bit == StartBit(element + position, bitWidth) && bit <= 8 * nextWord < bit + bitWidth
      requires spillover == if 8 * nextWord == bit then 0 else bitWidth - (8 * nextWord - bit)
      requires WordHolds(word, buffer[..], bit, 8 * nextWord - bit)
      ensures MaskHolds(mask, bitWidth, value) ==>
        Marked(out, marks, buffer[..], bitWidth, element, position, position + WordSlots(spillover, bitWidth), value)
      ensures Kept(out, marks) && (spillover == 0 ==> FirstMarked(marks, mask, buffer[..], bitWidth, element, position))
      ensures
        var left := WordLeft(spillover, bitWidth);
        WordHolds(nextSpill, buffer[..], 8 * nextWord + 64 - left, left)
    {
      hide Marked, WordHolds, Kept, MaskHolds, FirstMarked;
      var w, valueCount := bitWidth, (64 - spillover) / bitWidth;
      var loaded, offset;
      ghost var from;
      marks, loaded, offset, from := MarkFirstOfWord(word, nextWord, spillover, value, position, out, bit, element);
      ghost var spilled := marks;
      InnerEnd(64 - spillover, w, valueCount);
      marks := MarkWholeSlots(loaded, valueCount, mask, offset, marks, buffer[..], from, 64 - spillover, element,
        value);
      KeptThenKept(out, spilled, marks);
      if MaskHolds(mask, w, value) {
        MarkedThenMarked(out, spilled, marks, buffer[..], w, element, position, offset, offset + valueCount, value);
      }
      RestOfWord(buffer[..], loaded, from, 64 - spillover, valueCount * w);
      nextSpill := if valueCount * w == 64 then 0 else Shr(loaded, valueCount * w);
    }

    /** Loads the next word and compares the slot that spilled over into it, if there is one. */
    method MarkFirstOfWord(
        word: nat, nextWord: nat, spillover: nat, value: nat, position: nat, out: nat,
        ghost bit: nat, ghost element: nat)
      returns (marks: nat, loaded: nat, offset: nat, ghost from: nat)
      requires 1 <= bitWidth <= 32 && nextWord + 8 <= buffer.Length
      requires bit == StartBit(element + position, bitWidth) && bit <= 8 * nextWord < bit + bitWidth
      requires spillover == if 8 * nextWord == bit then 0 else bitWidth - (8 * nextWord - bit)
      requires WordHolds(word, buffer[..], bit, 8 * nextWord - bit)
      ensures offset == position + if spillover > 0 then 1 else 0
      ensures from == (element + offset) * bitWidth == 8 * nextWord + spillover
      ensures Marked(out, marks, buffer[..], bitWidth, element, position, offset, value)
      ensures Kept(out, marks)
      ensures WordHolds(loaded, buffer[..], from, 64 - spillover)
    {
      var w := bitWidth;
      marks, loaded, offset, from := out, LoadWord(buffer, nextWord), position, bit;
      assert buffer[..][nextWord..nextWord + 8] == buffer[nextWord..nextWord + 8];
      if spillover > 0 {
        SpilledSlot(buffer[..], word, nextWord, bit, w - spillover, w, element + position);
        if Low(Or(word, Low(Shl(loaded, w - spillover), 64)), w) == value {
          MarkNext(out, out, buffer[..], w, element, position, position, value, true);
          MarkKeeps(out, position, true);
          marks := Or(marks, Shl(1, position));
        }
        loaded := Shr(loaded, spillover);
        NextSlot(element + position, w);
        from, offset := bit + w, position + 1;
      } else {
        FreshWord(buffer[..], nextWord);
      }
    }

    method MarkWholeSlots(
        word: nat, count: nat, mask: nat, offset: nat, out: nat,
        ghost b: seq<Byte>, ghost bit: nat, ghost left: nat, ghost element: nat, ghost value: nat)
      returns (marks: nat)
      requires bitWidth >= 1 && left <= 64 && count == left / bitWidth
      requires WordHolds(word, b, bit, left) && bit == (element + offset) * bitWidth
      ensures MaskHolds(mask, bitWidth, value) ==>
        Marked(out, marks, b, bitWidth, element, offset, offset + count, value)
      ensures Kept(out, marks) && (count > 0 ==> FirstMarked(marks, mask, b, bitWidth, element, offset))
    {
      var w := bitWidth;
      var maskedWord := Xor(word, mask);
      marks := out;
      InnerEnd(left, w, count);
      for i := 0 to count
        invariant maskedWord == Shr(Xor(word, mask), i * w)
        invariant MaskHolds(mask, w, value) ==> Marked(out, marks, b, w, element, offset, offset + i, value)
        invariant Kept(out, marks) && (i > 0 ==> FirstMarked(marks, mask, b, w, element, offset))
      {
        MulMono(i + 1, count, w);
        NextSlot(i, w);
        XorIsZero(word, mask, i * w, w);
        SlotOfWord(b, word, bit, left, w, element + offset, i);
        MaskSlotInRange(i, count, left, w);
        var equal := Low(maskedWord, w) == 0;
        if MaskHolds(mask, w, value) {
          MarkNext(out, marks, b, w, element, offset, offset + i, value, equal);
        }
        MarkKeeps(marks, offset + i, equal);
        marks := Or(marks, Shl(if equal then 1 else 0, offset + i));
        ShrShr(Xor(word, mask), i * w, w);
        maskedWord := Shr(maskedWord, w);
      }
    }

    method EqualsBlock(element: nat, start: nat, value: nat, mask: nat, out: nat)
      returns (marks: nat, nextWord: nat)
      requires Holds(element + 64) && bitWidth <= 32 && 8 * start == element * bitWidth
      ensures MaskHolds(mask, bitWidth, value) ==> Marked(out, marks, buffer[..], bitWidth, element, 0, 64, value)
      ensures FirstMarked(marks, mask, buffer[..], bitWidth, element, 0)
      ensures nextWord == start + 8 * bitWidth
    {
      hide Marked, WordHolds, MaskHolds, BufferSize, StartBit, Field, Slot;
      assert SpillOver(0, bitWidth) == 0;
      hide SpillOver;
      var w := bitWidth;
      marks, nextWord := out, start;
      var word: nat, position: nat := 0, 0;
      ghost var k := 0;
      BlockBegins(element, w, start, buffer.Length, buffer[..]);
      NothingMarked(out, buffer[..], w, element, 0, value);
      while position != 64
        invariant AtWord(element, position, k, w, start) && nextWord == start + 8 * k
        invariant WordHolds(word, buffer[..], StartBit(element + position, w),
          8 * nextWord - StartBit(element + position, w))
        invariant MaskHolds(mask, w, value) ==> Marked(out, marks, buffer[..], w, element, 0, position, value)
        invariant position > 0 ==> FirstMarked(marks, mask, buffer[..], w, element, 0)
        decreases 64 - position
      {
        WordStep(element, position, k, w, start);
        var spillover := SpillOver(position, w);
        ghost var before := marks;
        marks, word := NextWordEquals(
          word, nextWord, spillover, value, mask, position, marks, StartBit(element + position, w), element);
        var next := position + WordSlots(spillover, w);
        if MaskHolds(mask, w, value) {
          MarkedThenMarked(out, before, marks, buffer[..], w, element, 0, position, next, value);
        }
        position, nextWord, k := next, nextWord + 8, k + 1;
      }
      WholeBlock(element, k, w, start);
    }

    /**
      The word that repeats `value` in every whole slot.  The source sets the slots of an eight-byte array through
      whole words; what those reach beyond the eight bytes is left as it is if the value fits a slot.
     */
    method EqualsMask(value: nat) returns (mask: nat)
      requires 1 <= bitWidth <= 32
      ensures mask == Repeated(value, bitWidth, 64 / bitWidth)
      ensures MaskHolds(mask, bitWidth, value) <==> Fits(value, bitWidth)
    {
      hide Fits, MaskHolds, Low, Or, Shl;
      mask := 0;
      for i := 0 to 64 / bitWidth
        invariant mask == Repeated(value, bitWidth, i)
      {
        mask := Low(Or(mask, Shl(value, i * bitWidth)), 64);
      }
      RepeatedHolds(value, bitWidth);
    }

    /** The word-at-a-time part of `Equals32`. */
    method MarkBlocks(start: nat, loopCount: nat, value: nat, mask: nat, bitVector: array<Byte>)
      requires start % 64 == 0 && Holds(start + 64 * loopCount) && bitWidth <= 32
      requires bitVector != buffer && BufferSize(64 * loopCount, 1) <= bitVector.Length
      modifies bitVector
      ensures MaskHolds(mask, bitWidth, value) || loopCount == 0 ==>
        MarkedRows(old(bitVector[..]), bitVector[..], buffer[..], bitWidth, start, 64 * loopCount, value)
      ensures loopCount > 0 && Slot(buffer[..], bitWidth, start) == Field(mask, 0, bitWidth) ==>
        BufBit(bitVector[..], 0)
    {
      hide MaskHolds, Marked, Slot, Field;
      ghost var right := MaskHolds(mask, bitWidth, value);
      var nextWord := start * bitWidth / 8;
      AlignedWord(start, bitWidth);
      for i := 0 to loopCount
        invariant 8 * nextWord == (start + 64 * i) * bitWidth
        invariant right || i == 0 ==>
          MarkedRows(old(bitVector[..]), bitVector[..], buffer[..], bitWidth, start, 64 * i, value)
        invariant i > 0 && Slot(buffer[..], bitWidth, start) == Field(mask, 0, bitWidth) ==> BufBit(bitVector[..], 0)
      {
        var element := start + 64 * i;
        HoldsMono(element + 64, start + 64 * loopCount);
        var out := LoadWord(bitVector, 8 * i);
        var marks;
        marks, nextWord := EqualsBlock(element, nextWord, value, mask, out);
        ghost var before := bitVector[..];
        StoreWord(bitVector, 8 * i, marks);
        if right {
          StoredMarks(old(bitVector[..]), before, bitVector[..], buffer[..], bitWidth, start, i, value, out, marks);
        }
        NextBlock(element, bitWidth);
      }
    }

    /**
      Sets bit i of `bitVector` for every slot start + i, i < length, that equals `value`.  With 64 slots or more,
      the first one is also marked if it holds the low bits of a value that is wider than a slot.
     */
    method Equals32(start: nat, length: nat, value: nat, bitVector: array<Byte>)
      requires Holds(start + length) && bitWidth <= 32
      requires start % 64 == 0
      requires bitVector != buffer && BufferSize(length, 1) <= bitVector.Length
      modifies bitVector
      ensures Fits(value, bitWidth) || length < 64 ==>
        MarkedRows(old(bitVector[..]), bitVector[..], buffer[..], bitWidth, start, length, value)
      ensures length >= 64 && Slot(buffer[..], bitWidth, start) == Low(value, bitWidth) ==> BufBit(bitVector[..], 0)
    {
      hide Fits, MaskHolds, Slot, BufferSize, MarkedRows, Field, Low, Repeated;
      var mask := EqualsMask(value);
      var loopCount := length / 64;
      HoldsMono(start + 64 * loopCount, start + length);
      RoomForBits(length, loopCount, bitVector.Length);
      MarkBlocks(start, loopCount, value, mask, bitVector);
      ghost var blocks := bitVector[..];
      FirstRepeated(value, bitWidth, 64 / bitWidth);
      MarkRest(start + loopCount / 64, start, length, value, bitVector);
      if Fits(value, bitWidth) || length < 64 {
        RestMarked(old(bitVector[..]), blocks, bitVector[..], start, loopCount / 64, 64 * loopCount, length, value);
      }
    }

    /** Compares slot by slot from `from` on. */
    method MarkRest(from: nat, start: nat, length: nat, value: nat, bitVector: array<Byte>)
      requires Holds(start + length) && bitWidth <= 32 && start <= from <= start + length
      requires bitVector != buffer && length <= 8 * bitVector.Length
      modifies bitVector
      ensures RestOf(old(bitVector[..]), bitVector[..], start, from - start, length, value)
    {
      hide Slot, BufferSize;
      for i := from to start + length
        invariant RestOf(old(bitVector[..]), bitVector[..], start, from - start, i - start, value)
      {
        HoldsMono(i + 1, start + length);
        var found := Get32(i);
        if found == value {
          SetBit(i - start, bitVector);
        }
      }
    }

    /** The equal slots from row `from` up to row `upto` are marked as well. */
    ghost predicate RestOf(before: seq<Byte>, after: seq<Byte>, start: nat, from: nat, upto: nat, value: nat)
      reads buffer
    {
      |after| == |before| &&
      forall k: nat {:trigger BufBit(after, k)} ::
        BufBit(after, k) == (BufBit(before, k) || (from <= k < upto && Slot(buffer[..], bitWidth, start + k) == value))
    }

    /** Rows compared twice do no harm: marking is idempotent. */
    lemma RestMarked(
        first: seq<Byte>, middle: seq<Byte>, last: seq<Byte>, start: nat, from: nat, done: nat, length: nat, value: nat)
      requires MarkedRows(first, middle, buffer[..], bitWidth, start, done, value) && from <= done <= length
      requires RestOf(middle, last, start, from, length, value)
      ensures MarkedRows(first, last, buffer[..], bitWidth, start, length, value)
    {
      hide Slot;
      forall i: nat
        ensures BufBit(last, i) ==
          (BufBit(first, i) || (i < length && Slot(buffer[..], bitWidth, start + i) == value))
      {
        assert BufBit(last, i) ==
          (BufBit(middle, i) || (from <= i < length && Slot(buffer[..], bitWidth, start + i) == value));
      }
    }

  }

  /**
    For every width and every wider value some buffer of 64 slots is marked wrongly: its first slot holds the low
    bits of the value.
   */
  method WideValueMarked(value: nat, w: nat) returns (packed: FixedBitArray, marks: array<Byte>)
    requires 1 <= w <= 32 && !Fits(value, w)
    ensures packed.bitWidth == w && packed.Holds(64)
    ensures !MarkedRows(ZeroBytes(marks.Length), marks[..], packed.buffer[..], w, 0, 64, value)
  {
    hide Slot, Low, Fits, BufferSize;
    var buffer, n := new Byte[BufferSize(64, w)](_ => 0), BufferSize(64, 1);
    packed := new FixedBitArray(buffer, w);
    LowFits(value, w);
    packed.HoldsMono(1, 64);
    packed.ZeroAndSet(0, Low(value, w));
    marks := new Byte[n](_ => 0);
    packed.Equals32(0, 64, value, marks);
    assert BufBit(marks[..], 0);
    ZeroBuffer(ZeroBytes(marks.Length), 0);
    SlotFits(packed.buffer[..], w, 0);
  }

  function ZeroBytes(n: nat): (b: seq<Byte>)
    ensures |b| == n && forall i :: 0 <= i < n ==> b[i] == 0
  {
    seq(n, _ => 0)
  }

  lemma SlotFits(b: seq<Byte>, w: nat, i: nat)
    ensures Fits(Slot(b, w, i), w)
  {
    LowFits(Shr(LeNat(b), i * w), w);
  }

  /** A value or-ed into the word at `start / 8`, with what sticks out or-ed into the next word. */
  lemma OredInTwoWords(before: seq<Byte>, middle: seq<Byte>, after: seq<Byte>, start: nat, w: nat, value: nat)
    requires Fits(value, w) && w <= 64
    requires
      var offset, r := start / 8, start % 8;
      && (if w + r > 64 then OredAt(before, middle, 8 * (offset + 8), Shr(value, 64 - r)) else middle == before)
      && OredAt(middle, after, 8 * offset, Low(Shl(value, r), 64))
    ensures OredAt(before, after, start, value)
  {
    var offset, r := start / 8, start % 8;
    forall k: nat
      ensures BufBit(after, k) == (BufBit(before, k) || (start <= k && Bit(value, k - start)))
    {
      var at := k - 8 * offset;
      if 0 <= at {
        BitLow(Shl(value, r), 64, at);
        BitShl(value, r, at);
        if r + w <= at { FitsBit(value, w, at - r); }
        if 64 <= at { BitShr(value, 64 - r, at - 64); }
      }
    }
  }

  /** Clearing the slot's bits and then or-ing the value in replaces the slot. */
  lemma ClearedThenOred(before: seq<Byte>, cleared: seq<Byte>, after: seq<Byte>, start: nat, w: nat, value: nat)
    requires ReplacedAt(before, cleared, start, w, 0) && OredAt(cleared, after, start, value) && Fits(value, w)
    ensures ReplacedAt(before, after, start, w, value)
  {
    forall k: nat
      ensures BufBit(after, k) == if start <= k < start + w then Bit(value, k - start) else BufBit(before, k)
    {
      if start <= k {
        BitOfZero(k - start);
        if start + w <= k { FitsBit(value, w, k - start); }
      }
    }
  }

  /** The masks `zeroAndSet` applies to the two words clear exactly the slot. */
  lemma ClearedInTwoWords(before: seq<Byte>, middle: seq<Byte>, after: seq<Byte>, start: nat, w: nat)
    requires w <= 64
    requires
      var offset, r := start / 8, start % 8;
      && ClearedAt(before, middle, 8 * offset, Low(Shl(Mask(w), r), 64))
      && (if w + r > 64 then ClearedAt(middle, after, 8 * (offset + 8), Mask(w + r - 64)) else after == middle)
    ensures ReplacedAt(before, after, start, w, 0)
  {
    hide Mask;
    var offset, r := start / 8, start % 8;
    forall k: nat
      ensures BufBit(after, k) == if start <= k < start + w then Bit(0, k - start) else BufBit(before, k)
    {
      if 8 * offset <= k { ClearedBits(w, r, k - 8 * offset); }
      if start <= k { BitOfZero(k - start); }
    }
  }

  /** Bit `at` of the two masks together: the `w` bits from bit `r` on. */
  lemma ClearedBits(w: nat, r: nat, at: nat)
    requires w <= 64 && r < 8
    ensures Bit(Low(Shl(Mask(w), r), 64), at) == (r <= at < 64 && at < r + w)
    ensures w + r > 64 && 64 <= at ==> Bit(Mask(w + r - 64), at - 64) == (at < r + w)
  {
    BitLow(Shl(Mask(w), r), 64, at);
    BitShl(Mask(w), r, at);
    if r <= at { BitMask(w, at - r); }
    if 64 <= at && w + r > 64 { BitMask(w + r - 64, at - 64); }
  }

  lemma ReplacedSlot(before: seq<Byte>, after: seq<Byte>, w: nat, i: nat, value: nat)
    requires ReplacedAt(before, after, i * w, w, value) && Fits(value, w)
    ensures forall s: nat :: Slot(after, w, s) == if s == i then value else Slot(before, w, s)
  {
    forall s: nat
      ensures Slot(after, w, s) == if s == i then value else Slot(before, w, s)
    {
      var want := if s == i then value else Slot(before, w, s);
      forall k: nat ensures Bit(Slot(after, w, s), k) == Bit(want, k) {
        SlotBit(after, w, s, k);
        SlotBit(before, w, s, k);
        if k < w {
          assert BufBit(after, s * w + k) ==
            if i * w <= s * w + k < i * w + w then Bit(value, s * w + k - i * w) else BufBit(before, s * w + k);
          if s != i { SlotsDisjoint(s, i, w, k); }
        } else {
          FitsBit(value, w, k);
        }
      }
      BitExt(Slot(after, w, s), want);
    }
  }

  /** A slot inside one word load. */
  lemma OneWordSlot(b: seq<Byte>, w: nat, i: nat)
    requires (i * w) / 8 + 8 <= |b| && w + (i * w) % 8 <= 64
    ensures Low(Shr(LeNat(b[(i * w) / 8..(i * w) / 8 + 8]), (i * w) % 8), w) == Slot(b, w, i)
  {
    var offset, r := (i * w) / 8, (i * w) % 8;
    var word := LeNat(b[offset..offset + 8]);
    forall k: nat ensures Bit(Field(word, r, w), k) == Bit(Slot(b, w, i), k) {
      SlotBit(b, w, i, k);
      BitField(word, r, w, k);
      WordBit(b, offset, k + r);
    }
    BitExt(Field(word, r, w), Slot(b, w, i));
  }
}
