/**
  Varints: unsigned LEB128 numbers (section 7.6 of the DWARF Version 5 standard).  The bulk decoder
  takes six bytes of every word load and carries a partial varint over to the next one; it is proved
  to agree with reading the varints one by one.
 */
module Varints {
  import opened BitMath

  // ----- what the bytes mean

  predicate Last(b: Byte)
  {
    b < 128
  }

  /** The number spelled by the low seven bits of each byte, least significant group first. */
  function Groups(b: seq<Byte>): nat
  {
    if b == [] then 0 else b[0] % 128 + 128 * Groups(b[1..])
  }

  /** The position after the next `n` final bytes from `pos` on, or |b| + 1 when there are not that many. */
  function EndOf(b: seq<Byte>, pos: nat, n: nat): nat
    decreases |b| - pos
  {
    if n == 0 then pos
    else if pos >= |b| then |b| + 1
    else EndOf(b, pos + 1, if Last(b[pos]) then n - 1 else n)
  }

  function MaxLength(bits: nat): nat
  {
    if bits == 32 then 5 else 10
  }

  predicate Width(bits: nat)
  {
    bits == 32 || bits == 64
  }

  /** `n` varints that are complete and not longer than the type allows start at `pos`. */
  predicate Stream(b: seq<Byte>, pos: nat, n: nat, bits: nat)
    decreases n
  {
    n == 0 ||
    (pos < |b| && EndOf(b, pos, 1) <= |b| && EndOf(b, pos, 1) - pos <= MaxLength(bits) &&
     Stream(b, EndOf(b, pos, 1), n - 1, bits))
  }

  /** The values of the `n` varints from `pos` on, in the unsigned type of `bits` bits. */
  function Values(b: seq<Byte>, pos: nat, n: nat, bits: nat): (r: seq<nat>)
    requires Stream(b, pos, n, bits)
    ensures |r| == n
    decreases n
  {
    if n == 0 then []
    else
      EndAfter(b, pos, 1);
      [Low(Groups(b[pos..EndOf(b, pos, 1)]), bits)] + Values(b, EndOf(b, pos, 1), n - 1, bits)
  }

  lemma {:induction false} EndAfter(b: seq<Byte>, pos: nat, n: nat)
    ensures EndOf(b, pos, n) >= pos || EndOf(b, pos, n) == |b| + 1
    ensures EndOf(b, pos, n) <= |b| ==> EndOf(b, pos, n) >= pos + n
    decreases |b| - pos
  {
    if n > 0 && pos < |b| { EndAfter(b, pos + 1, if Last(b[pos]) then n - 1 else n); }
  }

  lemma {:induction false} EndInTwo(b: seq<Byte>, pos: nat, m: nat, n: nat)
    requires EndOf(b, pos, m) <= |b|
    ensures EndOf(b, EndOf(b, pos, m), n) == EndOf(b, pos, m + n)
    decreases |b| - pos
  {
    if m > 0 { EndInTwo(b, pos + 1, if Last(b[pos]) then m - 1 else m, n); }
  }

  lemma {:induction false} StreamEnds(b: seq<Byte>, pos: nat, n: nat, bits: nat)
    requires Stream(b, pos, n, bits) && pos <= |b|
    ensures EndOf(b, pos, n) <= |b|
    decreases n
  {
    if n > 0 {
      StreamEnds(b, EndOf(b, pos, 1), n - 1, bits);
      EndInTwo(b, pos, 1, n - 1);
    }
  }

  /** No final byte in [from, to). */
  predicate Open(b: seq<Byte>, from: nat, to: nat)
  {
    from <= to <= |b| && forall i :: from <= i < to ==> !Last(b[i])
  }

  lemma {:induction false} EndPastOpen(b: seq<Byte>, from: nat, to: nat, n: nat)
    requires Open(b, from, to) && n > 0
    ensures EndOf(b, from, n) == EndOf(b, to, n)
    decreases |b| - from
  {
    if from < to { EndPastOpen(b, from + 1, to, n); }
  }

  // ----- groups

  lemma {:induction false} GroupsFit(b: seq<Byte>)
    ensures Fits(Groups(b), 7 * |b|)
  {
    if b != [] {
      GroupsFit(b[1..]);
      Pow2Add(7, 7 * |b| - 7);
    }
  }

  lemma {:induction false} Pow2Add(a: nat, b: nat)
    ensures Pow2(a + b) == Pow2(a) * Pow2(b)
  {
    if a > 0 { Pow2Add(a - 1, b); }
  }

  lemma ShlSeven(n: nat, k: nat)
    ensures Shl(n, k + 7) == 128 * Shl(n, k)
  {
    assert Shl(n, k + 2) == 4 * Shl(n, k);
    assert Shl(n, k + 4) == 4 * Shl(n, k + 2);
    assert Shl(n, k + 6) == 4 * Shl(n, k + 4);
  }

  lemma {:induction false} GroupsConcat(a: seq<Byte>, b: seq<Byte>)
    ensures Groups(a + b) == Groups(a) + Shl(Groups(b), 7 * |a|)
  {
    if a == [] {
      assert a + b == b;
    } else {
      assert (a + b)[1..] == a[1..] + b;
      GroupsConcat(a[1..], b);
      ShlSeven(Groups(b), 7 * |a| - 7);
    }
  }

  lemma LowLow(n: nat, k: nat, m: nat)
    requires m <= k
    ensures Low(Low(n, k), m) == Low(n, m)
  {
    forall i: nat ensures Bit(Low(Low(n, k), m), i) == Bit(Low(n, m), i) {
      BitLow(Low(n, k), m, i);
      BitLow(n, k, i);
      BitLow(n, m, i);
    }
    BitExt(Low(Low(n, k), m), Low(n, m));
  }

  lemma LowOr(a: nat, b: nat, k: nat)
    ensures Low(Or(a, b), k) == Or(Low(a, k), Low(b, k))
  {
    forall i: nat ensures Bit(Low(Or(a, b), k), i) == Bit(Or(Low(a, k), Low(b, k)), i) {
      BitLow(Or(a, b), k, i);
      BitBitwise(OrOp, a, b, i);
      BitBitwise(OrOp, Low(a, k), Low(b, k), i);
      BitLow(a, k, i);
      BitLow(b, k, i);
    }
    BitExt(Low(Or(a, b), k), Or(Low(a, k), Low(b, k)));
  }

  lemma OrCommutes(a: nat, b: nat)
    ensures Or(a, b) == Or(b, a)
  {
    forall i: nat ensures Bit(Or(a, b), i) == Bit(Or(b, a), i) {
      BitBitwise(OrOp, a, b, i);
      BitBitwise(OrOp, b, a, i);
    }
    BitExt(Or(a, b), Or(b, a));
  }

  /** Or-ing shifted groups onto the groups already read, truncating on the way, spells all groups. */
  lemma JoinGroups(a: seq<Byte>, b: seq<Byte>, high: nat, wide: nat, bits: nat)
    requires bits <= wide && Low(high, bits) == Low(Shl(Groups(b), 7 * |a|), bits)
    ensures Low(Or(high, Groups(a)), bits) == Low(Groups(a + b), bits)
  {
    var shifted := Shl(Groups(b), 7 * |a|);
    GroupsConcat(a, b);
    GroupsFit(a);
    OrIsSum(Groups(a), Groups(b), 7 * |a|);
    OrCommutes(high, Groups(a));
    LowOr(Groups(a), high, bits);
    LowOr(Groups(a), shifted, bits);
  }

  // ----- one varint at a time

  method WriteVarint(value: nat) returns (bytes: seq<Byte>)
    ensures bytes == VarintBytes(value)
  {
    var val := value;
    bytes := [];
    while val >= 128
      invariant bytes + VarintBytes(val) == VarintBytes(value)
    {
      bytes := bytes + [0x80 + val % 128];
      val := val / 128;
    }
    bytes := bytes + [val];
  }

  function VarintBytes(value: nat): (r: seq<Byte>)
    ensures r != []
  {
    if value < 128 then [value] else [0x80 + value % 128] + VarintBytes(value / 128)
  }

  method SkipVarint(b: seq<Byte>, pos: nat) returns (end: nat)
    requires EndOf(b, pos, 1) <= |b|
    ensures end == EndOf(b, pos, 1)
  {
    end := pos;
    EndAfter(b, pos, 1);
    while !Last(b[end])
      invariant pos <= end < |b| && EndOf(b, end, 1) == EndOf(b, pos, 1)
      decreases |b| - end
    {
      end := end + 1;
      EndAfter(b, end, 1);
    }
    end := end + 1;
  }

  /** `readVarint32` and `readVarint64`, whose five and ten steps the source writes out. */
  method ReadVarint(b: seq<Byte>, pos: nat, bits: nat) returns (value: nat, end: nat)
    requires Width(bits) && Stream(b, pos, 1, bits)
    ensures end == EndOf(b, pos, 1)
    ensures pos < end <= |b| && value == Low(Groups(b[pos..end]), bits)
  {
    value, end := 0, pos;
    EndAfter(b, pos, 1);
    LowOfFit(0, bits);
    var k := 0;
    while k < MaxLength(bits)
      invariant k <= MaxLength(bits) && end == pos + k && Open(b, pos, end) && end < EndOf(b, pos, 1)
      invariant value == Low(Groups(b[pos..end]), bits)
    {
      EndPastOpen(b, pos, end, 1);
      EndAfter(b, end, 1);
      ReadStep(b, pos, end, bits);
      var byte := b[end];
      value := Or(value, Low(Shl(byte % 128, 7 * k), bits));
      end, k := end + 1, k + 1;
      EndAfter(b, end, 1);
      if Last(byte) { return; }
    }
  }

  /** One byte more of a varint. */
  lemma ReadStep(b: seq<Byte>, pos: nat, end: nat, bits: nat)
    requires pos <= end < |b|
    ensures Or(Low(Groups(b[pos..end]), bits), Low(Shl(b[end] % 128, 7 * (end - pos)), bits))
      == Low(Groups(b[pos..end + 1]), bits)
  {
    var a, shifted := b[pos..end], Shl(b[end] % 128, 7 * (end - pos));
    assert Groups([b[end]]) == b[end] % 128 by { assert Groups([b[end]][1..]) == 0; }
    assert a + [b[end]] == b[pos..end + 1];
    JoinGroups(a, [b[end]], shifted, bits, bits);
    OrCommutes(shifted, Groups(a));
    LowOr(Groups(a), shifted, bits);
  }

  // ----- six bytes at a time

  /** `_pext_u64`: the bits of `word` selected by `mask`, packed together. */
  function Pext(word: nat, mask: nat): nat
    decreases mask, word
  {
    if mask == 0 then 0
    else if mask % 2 == 1 then word % 2 + 2 * Pext(word / 2, mask / 2)
    else Pext(word / 2, mask / 2)
  }

  /** `len` repetitions of one byte. */
  function Repeat(byte: Byte, len: nat): nat
  {
    if len == 0 then 0 else byte + 256 * Repeat(byte, len - 1)
  }

  /** The generator's mask: the low seven bits of the `len` bytes that end at byte `endByte`. */
  function VarintMask(endByte: nat, len: nat): nat
    requires len <= endByte + 1
  {
    Shl(Repeat(0x7f, len), 8 * (endByte + 1 - len))
  }

  const CONTROL_MASK := Repeat(0x80, MASK_LENGTH)

  const MASK_LENGTH := 6

  lemma {:induction false} PextOnes(word: nat, k: nat, mask: nat)
    ensures Pext(word, Mask(k) + Shl(mask, k)) == Low(word, k) + Shl(Pext(Shr(word, k), mask), k)
  {
    if k > 0 {
      var m := Mask(k - 1) + Shl(mask, k - 1);
      assert Mask(k) + Shl(mask, k) == 1 + 2 * m;
      PextOnes(word / 2, k - 1, mask);
    }
  }

  lemma {:induction false} PextZeros(word: nat, k: nat, mask: nat)
    ensures Pext(word, Shl(mask, k)) == Pext(Shr(word, k), mask)
  {
    if k > 0 {
      PextZeros(word / 2, k - 1, mask);
      assert Shl(mask, k) == 2 * Shl(mask, k - 1);
    }
  }

  lemma ShrIsQuotient(n: nat, k: nat, p: nat)
    requires p == Pow2(k)
    ensures Shr(n, k) == n / p && Low(n, k) == n % p
  {
    ShrLowSplit(n, k);
    ShlIsProduct(Shr(n, k), k);
    DivModUnique(n, p, Shr(n, k), Low(n, k));
  }

  lemma SmallShifts(word: nat, mask: nat)
    ensures Low(word, 7) == word % 128 && Shr(word, 7) == word / 128 && Shr(word, 8) == word / 256
    ensures Shr(word, 1) == word / 2 && Low(word, 1) == word % 2
    ensures Shl(mask, 1) == 2 * mask && Shl(mask, 7) == 128 * mask && Shl(mask, 8) == 256 * mask
    ensures Mask(1) == 1 && Mask(7) == 0x7f
  {
    Powers();
    ShrIsQuotient(word, 1, 2);
    ShrIsQuotient(word, 7, 128);
    ShrIsQuotient(word, 8, 256);
    ShlIsProduct(mask, 1);
    ShlIsProduct(mask, 7);
    ShlIsProduct(mask, 8);
  }

  lemma Powers()
    ensures Pow2(1) == 2 && Pow2(7) == 128 && Pow2(8) == 256
  {
  }

  /** One byte of a generated mask: no bits, seven value bits, or the control bit. */
  lemma PextNoBits(word: nat, mask: nat)
    ensures Pext(word, 256 * mask) == Pext(word / 256, mask)
  {
    SmallShifts(word, mask);
    PextZeros(word, 8, mask);
  }

  lemma PextValueBits(word: nat, mask: nat)
    ensures Pext(word, 0x7f + 256 * mask) == word % 128 + 128 * Pext(word / 256, mask)
  {
    SmallShifts(word, 2 * mask);
    SmallShifts(word / 128, mask);
    SmallShifts(word, Pext(word / 256, mask));
    PextOnes(word, 7, 2 * mask);
    PextZeros(word / 128, 1, mask);
    assert word / 128 / 2 == word / 256;
  }

  lemma PextControlBit(word: nat, mask: nat)
    ensures Pext(word, 0x80 + 256 * mask) == (word / 128) % 2 + 2 * Pext(word / 256, mask)
  {
    SmallShifts(word, 1 + 2 * mask);
    SmallShifts(word / 128, mask);
    SmallShifts(word, Pext(word / 256, mask));
    PextZeros(word, 7, 1 + 2 * mask);
    PextOnes(word / 128, 1, mask);
    assert word / 128 / 2 == word / 256;
  }

  lemma {:induction false} PextLowGroups(b: seq<Byte>, len: nat)
    requires len <= |b|
    ensures Pext(LeNat(b), Repeat(0x7f, len)) == Groups(b[..len])
  {
    hide Pext, LeNat;
    if len == 0 {
      PextNothing(LeNat(b));
    } else {
      PextValueBits(LeNat(b), Repeat(0x7f, len - 1));
      LeNatHead(b);
      PextLowGroups(b[1..], len - 1);
      assert b[..len][1..] == b[1..][..len - 1];
    }
  }

  lemma LeNatHead(b: seq<Byte>)
    requires b != []
    ensures LeNat(b) / 256 == LeNat(b[1..]) && LeNat(b) % 128 == b[0] % 128
    ensures LeNat(b) / 128 == b[0] / 128 + 2 * LeNat(b[1..])
  {
    var head, tail := b[0] as int, LeNat(b[1..]);
    assert LeNat(b) == head + 256 * tail;
    hide LeNat;
    DivModUnique(LeNat(b), 256, tail, head);
    DivModUnique(LeNat(b), 128, head / 128 + 2 * tail, head % 128);
  }

  lemma PextNothing(word: nat)
    ensures Pext(word, 0) == 0
  {
  }

  /** Extracting with a generated mask spells the groups of the masked bytes. */
  lemma {:induction false} PextGroups(b: seq<Byte>, first: nat, len: nat)
    requires first + len <= |b|
    ensures Pext(LeNat(b), Shl(Repeat(0x7f, len), 8 * first)) == Groups(b[first..first + len])
  {
    hide Pext, Groups, Repeat, LeNat;
    if first == 0 {
      PextLowGroups(b, len);
      assert b[0..len] == b[..len];
    } else {
      ShlEight(Repeat(0x7f, len), 8 * first - 8);
      PextNoBits(LeNat(b), Shl(Repeat(0x7f, len), 8 * first - 8));
      LeNatHead(b);
      PextGroups(b[1..], first - 1, len);
      assert b[1..][first - 1..first - 1 + len] == b[first..first + len];
    }
  }

  lemma ShlEight(n: nat, k: nat)
    ensures Shl(n, k + 8) == 256 * Shl(n, k)
  {
    ShlSeven(n, k);
  }

  lemma ControlByte(b: seq<Byte>, mask: nat)
    requires b != []
    ensures Pext(LeNat(b), 0x80 + 256 * mask) == b[0] / 128 + 2 * Pext(LeNat(b[1..]), mask)
  {
    PextControlBit(LeNat(b), mask);
    LeNatHead(b);
  }

  lemma BitAbove(n: nat, low: nat, rest: nat, k: nat)
    requires low < 2 && n == low + 2 * rest
    ensures Bit(n, k) == if k == 0 then low == 1 else Bit(rest, k - 1)
  {
  }

  /** Bit `k` of the control word tells whether byte `k` continues its varint. */
  lemma {:induction false} ControlBit(b: seq<Byte>, len: nat, k: nat)
    requires k < len <= |b|
    ensures Bit(Pext(LeNat(b), Repeat(0x80, len)), k) == !Last(b[k])
  {
    var control, rest := Pext(LeNat(b), Repeat(0x80, len)), Pext(LeNat(b[1..]), Repeat(0x80, len - 1));
    ControlByte(b, Repeat(0x80, len - 1));
    BitAbove(control, b[0] / 128, rest, k);
    if k > 0 { ControlBit(b[1..], len - 1, k - 1); }
  }

  /** The 8 bytes at `to` exist when eight varints end after it. */
  lemma EightLeft(b: seq<Byte>, from: nat, to: nat, n: nat, bits: nat)
    requires Open(b, from, to) && n >= 8 && Stream(b, from, n, bits)
    ensures to + 8 <= |b|
  {
    StreamEnds(b, from, n, bits);
    EndPastOpen(b, from, to, n);
    EndAfter(b, to, n);
  }

  /** `output` is what has been decoded when varint number n - left starts at `from`. */
  ghost predicate Decoded(b: seq<Byte>, pos: nat, n: nat, bits: nat, output: seq<nat>, from: nat, left: nat)
    requires Stream(b, pos, n, bits)
  {
    && Stream(b, from, left, bits)
    && output + Values(b, from, left, bits) == Values(b, pos, n, bits)
    && EndOf(b, from, left) == EndOf(b, pos, n)
  }

  lemma DecodedNext(b: seq<Byte>, pos: nat, n: nat, bits: nat, output: seq<nat>, from: nat, left: nat, end: nat)
    requires Stream(b, pos, n, bits) && Decoded(b, pos, n, bits, output, from, left) && left > 0
    requires from < end <= |b| && Open(b, from, end - 1) && Last(b[end - 1])
    ensures end == EndOf(b, from, 1)
    ensures Decoded(b, pos, n, bits, output + [Low(Groups(b[from..end]), bits)], end, left - 1)
  {
    EndPastOpen(b, from, end - 1, 1);
    EndInTwo(b, from, 1, left - 1);
    var value := [Low(Groups(b[from..end]), bits)];
    assert output + value + Values(b, end, left - 1, bits) == output + (value + Values(b, end, left - 1, bits));
  }

  /** A varint completed inside the word: `carryover` holds the bytes [from, base), the word the rest. */
  lemma CarriedValue(b: seq<Byte>, base: nat, from: nat, nextBit: nat, carryover: nat, firstValue: nat, bits: nat)
    requires from <= base && base + 8 <= |b| && nextBit < MASK_LENGTH && bits <= 64
    requires carryover == Groups(b[from..base])
    requires firstValue == Pext(LeNat(b[base..base + 8]), VarintMask(nextBit, nextBit + 1))
    ensures Low(Or(Low(Shl(firstValue, 7 * (base - from)), 64), carryover), bits)
      == Low(Groups(b[from..base + nextBit + 1]), bits)
  {
    var rest := b[base..base + nextBit + 1];
    PextGroups(b[base..base + 8], 0, nextBit + 1);
    assert b[base..base + 8][0..nextBit + 1] == rest;
    LowLow(Shl(Groups(rest), 7 * (base - from)), 64, bits);
    JoinGroups(b[from..base], rest, Low(Shl(firstValue, 7 * (base - from)), 64), 64, bits);
    assert b[from..base] + rest == b[from..base + nextBit + 1];
  }

  /** A varint inside one word. */
  lemma InnerValue(b: seq<Byte>, base: nat, endByte: nat, len: nat)
    requires base + 8 <= |b| && len <= endByte + 1 <= MASK_LENGTH
    ensures Pext(LeNat(b[base..base + 8]), VarintMask(endByte, len)) ==
      Groups(b[base + endByte + 1 - len..base + endByte + 1])
  {
    PextGroups(b[base..base + 8], endByte + 1 - len, len);
    SliceSlice(b, base, base + 8, endByte + 1 - len, endByte + 1);
  }

  lemma SliceSlice<T>(s: seq<T>, lo: nat, hi: nat, x: nat, y: nat)
    requires lo <= hi <= |s| && x <= y <= hi - lo
    ensures s[lo..hi][x..y] == s[lo + x..lo + y]
  {
    var a, b := s[lo..hi][x..y], s[lo + x..lo + y];
    assert |a| == |b|;
    assert forall i :: 0 <= i < |a| ==> a[i] == b[i];
  }

  /** No byte of the word ends the varint: its groups are added to what is carried over. */
  lemma CarriedOn(b: seq<Byte>, base: nat, from: nat, carryover: nat)
    requires from <= base && base + 8 <= |b| && 7 * (base - from) + 7 * MASK_LENGTH <= 64
    requires carryover == Groups(b[from..base])
    ensures
      var all := Pext(LeNat(b[base..base + 8]), VarintMask(MASK_LENGTH - 1, MASK_LENGTH));
      Or(carryover, Low(Shl(all, 7 * (base - from)), 64)) == Groups(b[from..base + MASK_LENGTH])
  {
    hide LeNat, Pext, VarintMask, Groups, Shl, Or, Low, Pow2;
    var rest := b[base..base + MASK_LENGTH];
    InnerValue(b, base, MASK_LENGTH - 1, MASK_LENGTH);
    GroupsConcat(b[from..base], rest);
    assert b[from..base] + rest == b[from..base + MASK_LENGTH];
    GroupsFit(b[from..base]);
    GroupsFit(b[from..base + MASK_LENGTH]);
    OrIsSum(carryover, Groups(rest), 7 * (base - from));
    var shifted := Shl(Groups(rest), 7 * (base - from));
    FitsMore(Groups(b[from..base + MASK_LENGTH]), 7 * (base + MASK_LENGTH - from), 64);
    assert shifted <= Groups(b[from..base + MASK_LENGTH]) < Pow2(64);
    LowOfFit(shifted, 64);
  }

  /** An unfinished varint is shorter than the longest one. */
  lemma OpenIsShort(b: seq<Byte>, from: nat, to: nat, n: nat, bits: nat)
    requires Open(b, from, to) && n > 0 && Stream(b, from, n, bits)
    ensures to - from < MaxLength(bits) && to < |b|
    ensures EndOf(b, from, 1) == EndOf(b, to, 1)
  {
    EndPastOpen(b, from, to, 1);
    EndAfter(b, to, 1);
  }

  lemma ControlOfWord(b: seq<Byte>, base: nat, k: nat)
    requires base + 8 <= |b| && k < MASK_LENGTH
    ensures Bit(Pext(LeNat(b[base..base + 8]), CONTROL_MASK), k) == !Last(b[base + k])
  {
    ControlBit(b[base..base + 8], MASK_LENGTH, k);
    assert b[base..base + 8][k] == b[base + k];
  }

  /** The value that ends at byte `nextBit` of the word: the first one joins what is carried over. */
  method NextValue(
      word: nat, carryover: nat, carryoverBits: nat, nextBit: nat, lastZero: int, bits: nat,
      ghost b: seq<Byte>, ghost base: nat, ghost from: nat)
    returns (value: nat)
    requires Width(bits) && base + 8 <= |b| && word == LeNat(b[base..base + 8])
    requires from <= base && carryoverBits == 7 * (base - from) && carryover == Groups(b[from..base])
    requires -1 <= lastZero < nextBit < MASK_LENGTH
    ensures value == Low(Groups(b[(if lastZero == -1 then from else base + lastZero + 1)..base + nextBit + 1]), bits)
  {
    if lastZero == -1 {
      var firstValue := Pext(word, VarintMask(nextBit, nextBit + 1));
      CarriedValue(b, base, from, nextBit, carryover, firstValue, bits);
      value := Low(Or(Low(Shl(firstValue, carryoverBits), 64), carryover), bits);
    } else {
      InnerValue(b, base, nextBit, nextBit - lastZero);
      value := Low(Pext(word, VarintMask(nextBit, nextBit - lastZero)), bits);
    }
  }

  /** What is known inside a word before byte `nextBit`: the varint in progress starts at `start`. */
  ghost predicate InWord(
    b: seq<Byte>, base: nat, from: nat, left: nat, bits: nat, nextBit: nat, lastZero: int, values: seq<nat>, start: nat)
  {
    && Stream(b, from, left, bits) && |values| <= nextBit && |values| <= left && -1 <= lastZero < nextBit
    && (lastZero == -1 <==> values == [])
    && start == (if lastZero == -1 then from else base + lastZero + 1)
    && Open(b, start, base + nextBit)
    && Decoded(b, from, left, bits, values, start, left - |values|)
  }

  lemma InWordNext(
    b: seq<Byte>, base: nat, from: nat, left: nat, bits: nat, nextBit: nat, lastZero: int, values: seq<nat>, start: nat)
    requires InWord(b, base, from, left, bits, nextBit, lastZero, values, start)
    requires base + nextBit < |b| && |values| < left
    ensures
      if Last(b[base + nextBit]) then
        InWord(b, base, from, left, bits, nextBit + 1, nextBit,
          values + [Low(Groups(b[start..base + nextBit + 1]), bits)], base + nextBit + 1)
      else InWord(b, base, from, left, bits, nextBit + 1, lastZero, values, start)
  {
    if Last(b[base + nextBit]) {
      DecodedNext(b, from, left, bits, values, start, left - |values|, base + nextBit + 1);
    }
  }

  /** The values completed by the six bytes at `base`, in the generator's order. */
  method DecodeWord(
      word: nat, controlBits: nat, carryover: nat, carryoverBits: nat, bits: nat,
      ghost b: seq<Byte>, ghost base: nat, ghost from: nat, ghost left: nat)
    returns (values: seq<nat>, lastZero: int, ghost start: nat)
    requires Width(bits) && base + 8 <= |b| && word == LeNat(b[base..base + 8])
    requires controlBits == Pext(word, CONTROL_MASK)
    requires Open(b, from, base) && carryoverBits == 7 * (base - from) && carryover == Groups(b[from..base])
    requires left >= 8 && Stream(b, from, left, bits)
    ensures InWord(b, base, from, left, bits, MASK_LENGTH, lastZero, values, start)
  {
    values, lastZero, start := [], -1, from;
    for nextBit := 0 to MASK_LENGTH
      invariant InWord(b, base, from, left, bits, nextBit, lastZero, values, start)
    {
      ControlOfWord(b, base, nextBit);
      InWordNext(b, base, from, left, bits, nextBit, lastZero, values, start);
      if !Bit(controlBits, nextBit) {
        var value := NextValue(word, carryover, carryoverBits, nextBit, lastZero, bits, b, base, from);
        values := values + [value];
        lastZero, start := nextBit, base + nextBit + 1;
      }
    }
  }

  lemma DecodedTrans(
    b: seq<Byte>, pos: nat, n: nat, bits: nat, first: seq<nat>, mid: nat, m: nat, second: seq<nat>, from: nat,
      left: nat)
    requires Stream(b, pos, n, bits) && Decoded(b, pos, n, bits, first, mid, m)
    requires Decoded(b, mid, m, bits, second, from, left)
    ensures Decoded(b, pos, n, bits, first + second, from, left)
  {
    var rest := Values(b, from, left, bits);
    assert first + second + rest == first + (second + rest);
  }

  /** The state between two words: `carryover` holds the bytes [from, to) of an unfinished varint. */
  ghost predicate BetweenWords(
    b: seq<Byte>, pos: nat, n: nat, bits: nat, output: seq<nat>, from: nat, to: nat, left: nat,
    carryover: nat, carryoverBits: nat)
  {
    && Stream(b, pos, n, bits) && Decoded(b, pos, n, bits, output, from, left)
    && Open(b, from, to) && (left > 0 || to == from)
    && carryoverBits == 7 * (to - from) && carryover == Groups(b[from..to])
  }

  /** What the end of each generated case does with `carryover` and `carryoverBits`. */
  method CarryOver(word: nat, lastZero: int, carryover: nat, carryoverBits: nat, bits: nat,
      ghost b: seq<Byte>, ghost base: nat, ghost from: nat, ghost left: nat, ghost values: seq<nat>, ghost start: nat)
    returns (newCarry: nat, newBits: nat)
    requires Width(bits) && base + 8 <= |b| && word == LeNat(b[base..base + 8]) && left >= 8
    requires Open(b, from, base) && carryoverBits == 7 * (base - from) && carryover == Groups(b[from..base])
    requires InWord(b, base, from, left, bits, MASK_LENGTH, lastZero, values, start)
    ensures newBits == 7 * (base + MASK_LENGTH - start) && newCarry == Groups(b[start..base + MASK_LENGTH])
  {
    hide EndOf, Values, Pext, LeNat;
    if lastZero == -1 {
      OpenIsShort(b, from, base + MASK_LENGTH, left, bits);
      CarriedOn(b, base, from, carryover);
      newCarry := Or(carryover, Low(Shl(Pext(word, VarintMask(MASK_LENGTH - 1, MASK_LENGTH)), carryoverBits), 64));
      newBits := carryoverBits + 7 * MASK_LENGTH;
    } else if lastZero == MASK_LENGTH - 1 {
      newCarry, newBits := 0, 0;
    } else {
      InnerValue(b, base, MASK_LENGTH - 1, MASK_LENGTH - 1 - lastZero);
      newCarry := Pext(word, VarintMask(MASK_LENGTH - 1, MASK_LENGTH - 1 - lastZero));
      newBits := 7 * (MASK_LENGTH - 1 - lastZero);
    }
  }

  lemma NothingDecoded(b: seq<Byte>, pos: nat, n: nat, bits: nat)
    requires Stream(b, pos, n, bits) && pos <= |b|
    ensures BetweenWords(b, pos, n, bits, [], pos, pos, n, 0, 0)
    ensures n == 0 ==> Values(b, pos, n, bits) == [] && EndOf(b, pos, n) == pos
  {
  }

  lemma AllDecoded(b: seq<Byte>, pos: nat, n: nat, bits: nat, output: seq<nat>, from: nat)
    requires Stream(b, pos, n, bits) && Decoded(b, pos, n, bits, output, from, 0)
    ensures output == Values(b, pos, n, bits) && from == EndOf(b, pos, n)
  {
  }

  /** One iteration of the bulk loop: decode what the word at `p` completes and carry over the rest. */
  method NextWord(
      b: seq<Byte>, p: nat, left: nat, carryover: nat, carryoverBits: nat, bits: nat,
      ghost pos: nat, ghost n: nat, ghost output: seq<nat>, ghost from: nat)
    returns (values: seq<nat>, newCarry: nat, newBits: nat, ghost start: nat)
    requires Width(bits) && left >= 8
    requires BetweenWords(b, pos, n, bits, output, from, p, left, carryover, carryoverBits)
    ensures |values| <= MASK_LENGTH && p + 8 <= |b|
    ensures BetweenWords(b, pos, n, bits, output + values, start, p + MASK_LENGTH, left - |values|, newCarry, newBits)
  {
    hide Groups, EndOf, Stream, Values, Pext, LeNat;
    EightLeft(b, from, p, left, bits);
    var word := LeNat(b[p..p + 8]);
    var controlBits := Pext(word, CONTROL_MASK);
    var lastZero;
    values, lastZero, start := DecodeWord(word, controlBits, carryover, carryoverBits, bits, b, p, from, left);
    newCarry, newBits := CarryOver(word, lastZero, carryover, carryoverBits, bits, b, p, from, left, values, start);
    DecodedTrans(b, pos, n, bits, output, from, left, values, start, left - |values|);
  }

  /** `bulkVarintDecodeBmi2`, with the generated switch replaced by the rule that generated it. */
  method BulkVarintDecode(n: nat, b: seq<Byte>, pos: nat, bits: nat) returns (output: seq<nat>, end: nat)
    requires Width(bits) && pos <= |b| && Stream(b, pos, n, bits)
    ensures output == Values(b, pos, n, bits) && end == EndOf(b, pos, n)
  {
    hide Groups, EndOf, Stream, Pext;
    output := [];
    NothingDecoded(b, pos, n, bits);
    var left: nat, carryover: nat, carryoverBits: nat := n, 0, 0;
    var p: int := pos - MASK_LENGTH;
    ghost var from := pos;
    while left >= 8
      invariant p + MASK_LENGTH >= 0
      invariant BetweenWords(b, pos, n, bits, output, from, p + MASK_LENGTH, left, carryover, carryoverBits)
      decreases |b| - p
    {
      p := p + MASK_LENGTH;
      var values;
      values, carryover, carryoverBits, from :=
        NextWord(b, p, left, carryover, carryoverBits, bits, pos, n, output, from);
      output, left := output + values, left - |values|;
    }
    p := p + MASK_LENGTH;
    end := p;
    if left > 0 {
      var values;
      values, end := DecodeTail(b, p, left, carryover, carryoverBits, bits, from);
      assert Decoded(b, pos, n, bits, output, from, left);
      output := output + values;
    } else {
      AllDecoded(b, pos, n, bits, output, from);
    }
  }

  /** The last few varints, read one by one; the first joins what the words left over. */
  method DecodeTail(b: seq<Byte>, p: nat, left: nat, carryover: nat, carryoverBits: nat, bits: nat, ghost from: nat)
    returns (output: seq<nat>, end: nat)
    requires Width(bits) && left > 0 && Stream(b, from, left, bits) && Open(b, from, p)
    requires carryoverBits == 7 * (p - from) && carryover == Groups(b[from..p])
    ensures output == Values(b, from, left, bits) && end == EndOf(b, from, left)
  {
    hide Groups, EndOf;
    OpenIsShort(b, from, p, left, bits);
    // The shift below is by less than the width of the type.
    assert carryoverBits < bits;
    StreamFromInside(b, from, p, bits);
    var value;
    value, end := ReadVarint(b, p, bits);
    LastValue(b, from, p, end, carryover, value, bits);
    EndIsFinal(b, p, end);
    DecodedNext(b, from, left, bits, [], from, left, end);
    output := [Low(Or(Low(Shl(value, carryoverBits), bits), carryover), bits)];
    for i := 1 to left
      invariant Decoded(b, from, left, bits, output, end, left - i)
    {
      ghost var start := end;
      value, end := ReadVarint(b, end, bits);
      EndIsFinal(b, start, end);
      DecodedNext(b, from, left, bits, output, start, left - i, end);
      output := output + [value];
    }
    AllDecoded(b, from, left, bits, output, end);
  }

  lemma StreamFromInside(b: seq<Byte>, from: nat, to: nat, bits: nat)
    requires Open(b, from, to) && Stream(b, from, 1, bits)
    ensures Stream(b, to, 1, bits)
  {
    OpenIsShort(b, from, to, 1, bits);
  }

  lemma {:induction false} EndIsFinal(b: seq<Byte>, pos: nat, end: nat)
    requires end == EndOf(b, pos, 1) <= |b|
    ensures pos < end && Open(b, pos, end - 1) && Last(b[end - 1])
    decreases |b| - pos
  {
    if pos < |b| && !Last(b[pos]) { EndIsFinal(b, pos + 1, end); }
  }

  /** The varint left over from the last word: its carried groups and the rest read on its own. */
  lemma LastValue(b: seq<Byte>, from: nat, p: nat, end: nat, carryover: nat, value: nat, bits: nat)
    requires from <= p < end <= |b| && carryover == Groups(b[from..p])
    requires value == Low(Groups(b[p..end]), bits)
    ensures Low(Or(Low(Shl(value, 7 * (p - from)), bits), carryover), bits) == Low(Groups(b[from..end]), bits)
  {
    var rest, k := Groups(b[p..end]), 7 * (p - from);
    LowLow(Shl(value, k), bits, bits);
    LowShl(rest, k, bits);
    JoinGroups(b[from..p], b[p..end], Low(Shl(value, k), bits), bits, bits);
    assert b[from..p] + b[p..end] == b[from..end];
  }

  lemma LowShl(n: nat, k: nat, bits: nat)
    ensures Low(Shl(Low(n, bits), k), bits) == Low(Shl(n, k), bits)
  {
    forall i: nat ensures Bit(Low(Shl(Low(n, bits), k), bits), i) == Bit(Low(Shl(n, k), bits), i) {
      BitLow(Shl(Low(n, bits), k), bits, i);
      BitLow(Shl(n, k), bits, i);
      BitShl(Low(n, bits), k, i);
      BitShl(n, k, i);
      if k <= i { BitLow(n, bits, i - k); }
    }
    BitExt(Low(Shl(Low(n, bits), k), bits), Low(Shl(n, k), bits));
  }

  // ----- skipping eight bytes at a time

  function PopCount(n: nat): nat
  {
    if n == 0 then 0 else n % 2 + PopCount(n / 2)
  }

  /** How many of the bytes end a varint. */
  function Finals(b: seq<Byte>): (n: nat)
    ensures n <= |b|
  {
    if b == [] then 0 else (if Last(b[0]) then 1 else 0) + Finals(b[1..])
  }

  /** `~word & 0x8080...80` has one bit for every byte that ends a varint. */
  function FinalBits(word: nat, bytes: nat): nat
  {
    And(Xor(word, Mask(8 * bytes)), Repeat(0x80, bytes))
  }

  lemma {:induction false} BitRepeat(len: nat, i: nat)
    ensures Bit(Repeat(0x80, len), i) == (i < 8 * len && i % 8 == 7)
  {
    if len == 0 {
      BitOfZero(i);
    } else {
      BitOfByteThen(0x80, Repeat(0x80, len - 1), i);
      if i >= 8 { BitRepeat(len - 1, i - 8); }
    }
  }

  lemma TopBit(x: Byte)
    ensures Bit(x, 7) == !Last(x)
  {
    BitShr(x, 7, 0);
    SmallShifts(x, 0);
  }

  lemma FinalBit(b: seq<Byte>, i: nat)
    ensures Bit(FinalBits(LeNat(b), |b|), i) == (i < 8 * |b| && i % 8 == 7 && Last(b[i / 8]))
  {
    BitBitwise(AndOp, Xor(LeNat(b), Mask(8 * |b|)), Repeat(0x80, |b|), i);
    BitBitwise(XorOp, LeNat(b), Mask(8 * |b|), i);
    BitMask(8 * |b|, i);
    BitRepeat(|b|, i);
    BitLeNat(b, i);
    if i < 8 * |b| && i % 8 == 7 { TopBit(b[i / 8]); }
  }

  lemma {:induction false} FinalBitsHead(b: seq<Byte>)
    requires b != []
    ensures FinalBits(LeNat(b), |b|) == (if Last(b[0]) then 128 else 0) + 256 * FinalBits(LeNat(b[1..]), |b| - 1)
  {
    var head: Byte := if Last(b[0]) then 128 else 0;
    var all, rest := FinalBits(LeNat(b), |b|), FinalBits(LeNat(b[1..]), |b| - 1);
    forall i: nat ensures Bit(all, i) == Bit(head + 256 * rest, i) {
      FinalBit(b, i);
      BitOfByteThen(head, rest, i);
      if i < 8 { BitOfHead(head, i); } else { FinalBit(b[1..], i - 8); }
    }
    BitExt(all, head + 256 * rest);
  }

  lemma BitOfHead(head: Byte, i: nat)
    requires (head == 0 || head == 128) && i < 8
    ensures Bit(head, i) == (head == 128 && i == 7)
  {
    if head == 0 { BitOfZero(i); }
  }

  lemma {:induction false} PopCountFinals(b: seq<Byte>)
    ensures PopCount(FinalBits(LeNat(b), |b|)) == Finals(b)
  {
    if b != [] {
      FinalBitsHead(b);
      PopCountFinals(b[1..]);
      PopCountByte(if Last(b[0]) then 1 else 0, FinalBits(LeNat(b[1..]), |b| - 1));
    } else {
      assert Repeat(0x80, 0) == 0;
      assert Bitwise(AndOp, 0, 0) == 0 && Mask(0) == 0 && Bitwise(XorOp, 0, 0) == 0;
    }
  }

  lemma PopCountByte(top: nat, rest: nat)
    requires top < 2
    ensures PopCount(128 * top + 256 * rest) == top + PopCount(rest)
  {
    hide PopCount;
    var n := top + 2 * rest;
    PopCountStep(top, rest);
    PopCountStep(0, n);
    PopCountStep(0, 2 * n);
    PopCountStep(0, 4 * n);
    PopCountStep(0, 8 * n);
    PopCountStep(0, 16 * n);
    PopCountStep(0, 32 * n);
    PopCountStep(0, 64 * n);
  }

  lemma PopCountStep(low: nat, rest: nat)
    requires low < 2
    ensures PopCount(low + 2 * rest) == low + PopCount(rest)
  {
  }

  /** Moving past bytes that hold at most `n` final ones leaves the target of a skip where it is. */
  lemma {:induction false} EndPastBytes(b: seq<Byte>, pos: nat, len: nat, n: nat)
    requires pos + len <= |b| && len <= n
    ensures EndOf(b, pos, n) == EndOf(b, pos + len, n - Finals(b[pos..pos + len]))
    decreases len
  {
    if len > 0 {
      assert b[pos..pos + len][1..] == b[pos + 1..pos + len];
      EndPastBytes(b, pos + 1, len - 1, if Last(b[pos]) then n - 1 else n);
    }
  }

  /** `bulkVarintSkip`: lands where skipping the varints one by one does. */
  method BulkVarintSkip(count: nat, b: seq<Byte>, pos: nat) returns (end: nat)
    requires EndOf(b, pos, count) <= |b|
    ensures end == EndOf(b, pos, count)
  {
    var n: nat := count;
    end := pos;
    while n >= 8
      invariant EndOf(b, end, n) == EndOf(b, pos, count)
      decreases |b| - end
    {
      EndAfter(b, end, n);
      var bytes := b[end..end + 8];
      PopCountFinals(bytes);
      EndPastBytes(b, end, 8, n);
      n := n - PopCount(FinalBits(LeNat(bytes), 8));
      end := end + 8;
    }
    while n > 0
      invariant EndOf(b, end, n) == EndOf(b, pos, count)
    {
      EndOfFirst(b, end, n);
      EndInTwo(b, end, 1, n - 1);
      end := SkipVarint(b, end);
      n := n - 1;
    }
  }

  lemma {:induction false} EndOfFirst(b: seq<Byte>, pos: nat, n: nat)
    requires n > 0 && EndOf(b, pos, n) <= |b|
    ensures EndOf(b, pos, 1) <= |b|
    decreases |b| - pos
  {
    if pos < |b| && !Last(b[pos]) {
      EndOfFirst(b, pos + 1, n);
    } else if pos < |b| {
      EndAfter(b, pos + 1, 0);
    }
  }

  // ----- sizes

  function BitLength(n: nat): nat
  {
    if n == 0 then 0 else 1 + BitLength(n / 2)
  }

  const SIZE_TABLE_32: seq<nat> := [
    5, 5, 5, 5, 4, 4, 4, 4, 4, 4, 4, 3, 3, 3, 3, 3, 3, 3, 2, 2, 2, 2, 2, 2, 2, 1, 1, 1, 1, 1, 1, 1]

  /** The last 32 entries of the source's 64-entry table are its 32-entry table. */
  const SIZE_TABLE_64: seq<nat> := [
    10, 9, 9, 9, 9, 9, 9, 9, 8, 8, 8, 8, 8, 8, 8, 7, 7, 7, 7, 7, 7, 7, 6, 6, 6, 6, 6, 6, 6, 5, 5, 5] + SIZE_TABLE_32

  function SizeTable(bits: nat): (table: seq<nat>)
    requires Width(bits)
    ensures |table| == bits
  {
    if bits == 32 then SIZE_TABLE_32 else SIZE_TABLE_64
  }

  lemma SmallEntry(length: nat)
    requires 1 <= length <= 32
    ensures SIZE_TABLE_32[32 - length] == (length + 6) / 7
  {
  }

  lemma LargeEntry(length: nat)
    requires 33 <= length <= 64
    ensures SIZE_TABLE_64[64 - length] == (length + 6) / 7
  {
    assert SIZE_TABLE_64[64 - length] == SIZE_TABLE_64[..32][64 - length];
  }

  lemma TableEntry(bits: nat, length: nat)
    requires Width(bits) && 1 <= length <= bits
    ensures SizeTable(bits)[bits - length] == (length + 6) / 7
  {
    if length > 32 { LargeEntry(length); } else { SmallEntry(length); }
  }

  lemma {:induction false} SizeFromBitLength(value: nat)
    ensures |VarintBytes(value)| == if value == 0 then 1 else (BitLength(value) + 6) / 7
  {
    if value >= 128 {
      BitLengthSeven(value);
      SizeFromBitLength(value / 128);
    } else if value > 0 {
      assert BitLength(value) <= 7 by { BitLengthFits(value, 7); assert Pow2(7) == 128; }
    }
  }

  lemma BitLengthSeven(value: nat)
    requires value >= 128
    ensures BitLength(value) == 7 + BitLength(value / 128)
  {
    hide BitLength;
    var a := value / 4;
    var b := a / 4;
    var c := b / 4;
    BitLengthFour(value);
    BitLengthFour(a);
    BitLengthFour(b);
    BitLengthTwo(c);
    assert c / 2 == value / 128;
  }

  lemma BitLengthTwo(value: nat)
    requires value >= 2
    ensures BitLength(value) == 1 + BitLength(value / 2)
  {
  }

  lemma BitLengthFour(value: nat)
    requires value >= 4
    ensures BitLength(value) == 2 + BitLength(value / 4)
  {
  }

  lemma {:induction false} BitLengthFits(value: nat, bits: nat)
    requires Fits(value, bits)
    ensures BitLength(value) <= bits
  {
    if value > 0 { BitLengthFits(value / 2, bits - 1); }
  }

  lemma BitLengthOrOne(value: nat)
    ensures BitLength(Or(value, 1)) == if value == 0 then 1 else BitLength(value)
  {
    OrWithOne(value);
    assert (1 + 2 * (value / 2)) / 2 == value / 2;
  }

  lemma OrWithOne(value: nat)
    ensures Or(value, 1) == 1 + 2 * (value / 2)
  {
    OrWithZero(value / 2);
    assert Bitwise(OrOp, value, 1) == 1 + 2 * Bitwise(OrOp, value / 2, 0);
  }

  lemma {:induction false} OrWithZero(n: nat)
    ensures Bitwise(OrOp, n, 0) == n
  {
    if n > 0 { OrWithZero(n / 2); }
  }

  /** The bytes `writeVarint` produces for all the values, one after the other. */
  function Encoded(values: seq<nat>): seq<Byte>
  {
    if values == [] then [] else VarintBytes(values[0]) + Encoded(values[1..])
  }

  lemma {:induction false} EncodedConcat(xs: seq<nat>, ys: seq<nat>)
    ensures Encoded(xs + ys) == Encoded(xs) + Encoded(ys)
  {
    if xs == [] {
      assert xs + ys == ys;
    } else {
      assert (xs + ys)[1..] == xs[1..] + ys;
      EncodedConcat(xs[1..], ys);
    }
  }

  lemma EncodedNothing()
    ensures Encoded([]) == []
  {
  }

  lemma EncodedNext(xs: seq<nat>, value: nat)
    ensures Encoded(xs + [value]) == Encoded(xs) + VarintBytes(value)
  {
    EncodedConcat(xs, [value]);
    assert Encoded([value]) == VarintBytes(value) + Encoded([value][1..]);
  }

  /** `bulkVarintSize32` and `bulkVarintSize64` */
  method BulkVarintSize(values: seq<nat>, bits: nat) returns (size: nat)
    requires Width(bits) && forall v :: v in values ==> Fits(v, bits)
    ensures size == |Encoded(values)|
  {
    hide SizeTable, Encoded, BitLength, Or;
    size := 0;
    EncodedNothing();
    for i := 0 to |values|
      invariant size == |Encoded(values[..i])|
    {
      var value := values[i];
      var length := BitLength(Or(value, 1));
      BitLengthOrOne(value);
      BitLengthFits(value, bits);
      SizeFromBitLength(value);
      TableEntry(bits, length);
      size := size + SizeTable(bits)[bits - length];
      EncodedNext(values[..i], value);
      assert values[..i + 1] == values[..i] + [value];
    }
    assert values[..|values|] == values;
  }

  // ----- writing and reading back

  lemma {:induction false} GroupsOfVarint(value: nat)
    ensures Groups(VarintBytes(value)) == value
  {
    if value >= 128 {
      GroupsOfVarint(value / 128);
      assert VarintBytes(value)[1..] == VarintBytes(value / 128);
    } else {
      assert Groups([value][1..]) == 0;
    }
  }

  lemma {:induction false} EndOfVarint(b: seq<Byte>, pos: nat, value: nat)
    requires pos + |VarintBytes(value)| <= |b| && b[pos..pos + |VarintBytes(value)|] == VarintBytes(value)
    ensures EndOf(b, pos, 1) == pos + |VarintBytes(value)|
    decreases value
  {
    var bytes := VarintBytes(value);
    assert b[pos] == b[pos..pos + |bytes|][0];
    if value >= 128 {
      assert b[pos + 1..pos + |bytes|] == b[pos..pos + |bytes|][1..];
      EndOfVarint(b, pos + 1, value / 128);
    }
  }

  lemma FirstWritten(b: seq<Byte>, pos: nat, value: nat, bits: nat)
    requires Width(bits) && Fits(value, bits)
    requires pos + |VarintBytes(value)| <= |b| && b[pos..pos + |VarintBytes(value)|] == VarintBytes(value)
    ensures
      var end := pos + |VarintBytes(value)|;
      EndOf(b, pos, 1) == end && end - pos <= MaxLength(bits) && Low(Groups(b[pos..end]), bits) == value
  {
    EndOfVarint(b, pos, value);
    GroupsOfVarint(value);
    LowOfFit(value, bits);
    SizeFromBitLength(value);
    BitLengthFits(value, bits);
  }

  lemma NothingRead(b: seq<Byte>, pos: nat)
    ensures EndOf(b, pos, 0) == pos
  {
  }

  /** What the writer produced is a well-formed stream that reads back as the values, and ends where it ended. */
  lemma {:induction false} WriteThenRead(b: seq<Byte>, pos: nat, values: seq<nat>, bits: nat)
    requires Width(bits) && forall v :: v in values ==> Fits(v, bits)
    requires pos + |Encoded(values)| <= |b| && b[pos..pos + |Encoded(values)|] == Encoded(values)
    ensures Stream(b, pos, |values|, bits)
    ensures Values(b, pos, |values|, bits) == values
    ensures EndOf(b, pos, |values|) == pos + |Encoded(values)|
    decreases |values|
  {
    hide Groups, VarintBytes, Low, Fits, EndOf;
    NothingRead(b, pos);
    if values != [] {
      var bytes, rest := VarintBytes(values[0]), Encoded(values[1..]);
      var end := pos + |bytes|;
      assert b[pos..end] == b[pos..pos + |bytes + rest|][..|bytes|] == bytes;
      FirstWritten(b, pos, values[0], bits);
      assert b[end..end + |rest|] == b[pos..pos + |bytes + rest|][|bytes|..] == rest;
      WriteThenRead(b, end, values[1..], bits);
      EndInTwo(b, pos, 1, |values| - 1);
    }
  }
}
