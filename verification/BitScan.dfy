/**
  Counting, finding, packing and copying bits a word or a byte at a time, each against the plain sequence
  of flags that the bitmap stands for.
 */
module BitScan {
  import opened BitMath
  import opened Sequences

  /** `bits::findSetBit`: the `n`th set bit of [begin, end), or `end`. */
  method FindSetBit(bitmap: array<bool>, begin: nat, end: nat, n: nat) returns (position: nat)
    requires begin <= end <= bitmap.Length && n > 0
    ensures begin <= position <= end
    ensures CountTrue(bitmap[begin..end]) < n ==> position == end
    ensures CountTrue(bitmap[begin..end]) >= n ==>
      position < end && bitmap[position] && CountTrue(bitmap[begin..position]) == n - 1
  {
    hide CountTrue, Rank;
    ghost var bits := bitmap[begin..end];
    RankAll(bits);
    var left := n;
    position := begin;
    while position < end
      invariant begin <= position <= end && 0 < left && left + Rank(bits, position - begin) == n
    {
      RankNext(bits, position - begin);
      RankMono(bits, position - begin + 1, |bits|);
      assert bitmap[begin..position] == bits[..position - begin];
      RankOfPrefix(bits, position - begin);
      if bitmap[position] {
        left := left - 1;
        if left == 0 { return; }
      }
      position := position + 1;
    }
  }

  // ----- bitmaps of words

  /** The flags of a bitmap of 64-bit words. */
  ghost function FlagsOf(words: seq<nat>): (f: seq<bool>)
    ensures |f| == 64 * |words|
  {
    seq(64 * |words|, i requires 0 <= i < 64 * |words| => Bit(words[i / 64], i % 64))
  }

  ghost predicate AreWords(words: seq<nat>)
  {
    forall k :: 0 <= k < |words| ==> Fits(words[k], 64)
  }

  ghost function WordFlags(word: nat): (f: seq<bool>)
    ensures |f| == 64
  {
    seq(64, i requires 0 <= i < 64 => Bit(word, i))
  }

  /** `__builtin_popcountll` */
  function Popcount(word: nat, n: nat): nat
  {
    if n == 0 then 0 else word % 2 + Popcount(word / 2, n - 1)
  }

  lemma {:induction false} PopcountFrom(word: nat, whole: nat, i: nat)
    requires i <= 64 && forall j: nat :: Bit(word, j) == Bit(whole, i + j)
    ensures Popcount(word, 64 - i) == CountTrue(WordFlags(whole)) - Rank(WordFlags(whole), i)
    decreases 64 - i
  {
    RankAll(WordFlags(whole));
    if i < 64 {
      forall j: nat ensures Bit(word / 2, j) == Bit(whole, i + 1 + j) {
        assert Bit(word, j + 1) == Bit(whole, i + (j + 1));
      }
      PopcountFrom(word / 2, whole, i + 1);
      assert Bit(word, 0) == Bit(whole, i + 0);
    }
  }

  /** The word holds the flags [from, from + len) and nothing else. */
  ghost predicate Shows(word: nat, flags: seq<bool>, from: nat, len: nat)
  {
    len <= 64 && from + len <= |flags| && forall i: nat :: Bit(word, i) == (i < len && flags[from + i])
  }

  lemma PopcountShows(word: nat, flags: seq<bool>, from: nat, len: nat)
    requires Shows(word, flags, from, len)
    ensures Popcount(word, 64) == Rank(flags, from + len) - Rank(flags, from)
  {
    hide CountTrue, Rank, Popcount;
    var bits := WordFlags(word);
    RankAll(bits);
    PopcountFrom(word, word, 0);
    RankFlat(bits, len, 64);
    assert bits[0..len] == flags[from..from + len];
    RankOfSlice(bits, 0, len);
    RankOfSlice(flags, from, from + len);
  }

  /** A word of the bitmap, from bit `used` on and cut to `len` bits. */
  lemma FieldShows(words: seq<nat>, k: nat, used: nat, len: nat)
    requires AreWords(words) && k < |words| && used + len <= 64
    ensures Shows(Field(words[k], used, len), FlagsOf(words), 64 * k + used, len)
    ensures used + len == 64 ==> Field(words[k], used, len) == Shr(words[k], used)
  {
    hide Field, Shr, Low;
    var flags := FlagsOf(words);
    forall i: nat ensures Bit(Field(words[k], used, len), i) == (i < len && flags[64 * k + used + i]) {
      BitField(words[k], used, len, i);
      if i < len { WordOf(k, used + i); }
    }
    if used + len == 64 {
      forall i: nat ensures Bit(Field(words[k], used, len), i) == Bit(Shr(words[k], used), i) {
        BitField(words[k], used, len, i);
        BitShr(words[k], used, i);
        if i >= len { FitsBit(words[k], 64, used + i); }
      }
      BitExt(Field(words[k], used, len), Shr(words[k], used));
    }
  }

  lemma WordOf(k: nat, i: nat)
    requires i < 64
    ensures (64 * k + i) / 64 == k && (64 * k + i) % 64 == i
  {
  }

  /** A whole word. */
  lemma WordShows(words: seq<nat>, k: nat)
    requires AreWords(words) && k < |words|
    ensures Shows(words[k], FlagsOf(words), 64 * k, 64)
  {
    hide Field, Shows;
    FieldShows(words, k, 0, 64);
  }

  /** `bits::countSetBits` */
  method CountSetBits(row: nat, rowCount: nat, words: seq<nat>) returns (nonNullCount: nat)
    requires AreWords(words) && row + rowCount <= 64 * |words|
    ensures nonNullCount == CountTrue(FlagsOf(words)[row..row + rowCount])
  {
    hide AreWords, FlagsOf, Popcount, Field, Shr, Low, Rank, CountTrue, Shows;
    ghost var flags, end := FlagsOf(words), row + rowCount;
    RankOfSlice(flags, row, end);
    nonNullCount := 0;
    var next, left := row / 64, rowCount;
    var used := row - 64 * next;
    if used > 0 {
      if row + rowCount <= 64 * next + 64 {
        FieldShows(words, next, used, rowCount);
        PopcountShows(Field(words[next], used, rowCount), flags, row, rowCount);
        return Popcount(Field(words[next], used, rowCount), 64);
      }
      FieldShows(words, next, used, 64 - used);
      PopcountShows(Shr(words[next], used), flags, row, 64 - used);
      nonNullCount := Popcount(Shr(words[next], used), 64);
      next, left := next + 1, left - (64 - used);
    }
    var wordCount := left / 64;
    var remainder := left - 64 * wordCount;
    ghost var first := next;
    for i := 0 to wordCount
      invariant next == first + i && nonNullCount == Rank(flags, 64 * next) - Rank(flags, row)
    {
      WordShows(words, next);
      PopcountShows(words[next], flags, 64 * next, 64);
      nonNullCount := nonNullCount + Popcount(words[next], 64);
      next := next + 1;
    }
    if remainder > 0 {
      FieldShows(words, next, 0, remainder);
      PopcountShows(Field(words[next], 0, remainder), flags, 64 * next, remainder);
      nonNullCount := nonNullCount + Popcount(Field(words[next], 0, remainder), 64);
    }
  }

  // ----- the positions of set bits

  /** The positions of the set flags among the first `n`. */
  function SetIndices(flags: seq<bool>, n: nat): (r: seq<nat>)
    requires n <= |flags|
    ensures |r| == Rank(flags, n)
  {
    if n == 0 then [] else SetIndices(flags, n - 1) + if flags[n - 1] then [n - 1] else []
  }

  /** They are exactly the set positions, in order. */
  lemma {:induction false} SetIndicesAscend(flags: seq<bool>, n: nat)
    requires n <= |flags|
    ensures forall i :: 0 <= i < |SetIndices(flags, n)| ==>
      SetIndices(flags, n)[i] < n && flags[SetIndices(flags, n)[i]]
    ensures forall i, j :: 0 <= i < j < |SetIndices(flags, n)| ==> SetIndices(flags, n)[i] < SetIndices(flags, n)[j]
    ensures forall k :: 0 <= k < n && flags[k] ==> k in SetIndices(flags, n)
  {
    hide Rank;
    if n > 0 { SetIndicesAscend(flags, n - 1); }
  }

  lemma {:induction false} SetIndicesFlat(flags: seq<bool>, j: nat, k: nat)
    requires j <= k <= |flags| && forall i :: j <= i < k ==> !flags[i]
    ensures SetIndices(flags, k) == SetIndices(flags, j)
    decreases k
  {
    if j < k { SetIndicesFlat(flags, j, k - 1); }
  }

  /** `__builtin_ffsll`: one more than the position of the lowest set bit, or 0. */
  function Ffs(word: nat): nat
  {
    if word == 0 then 0 else if word % 2 == 1 then 1 else 1 + Ffs(word / 2)
  }

  lemma {:induction false} FfsFinds(word: nat)
    ensures word == 0 <==> Ffs(word) == 0
    ensures word > 0 ==> Bit(word, Ffs(word) - 1)
    ensures forall i: nat :: i + 1 < Ffs(word) ==> !Bit(word, i)
  {
    if word > 0 && word % 2 == 0 {
      FfsFinds(word / 2);
      forall i: nat | i + 1 < Ffs(word) ensures !Bit(word, i) {
        if i > 0 { assert !Bit(word / 2, i - 1); }
      }
    }
  }

  /** A shift by 64 or more is undefined. */
  function Shift(word: nat, k: nat): nat
    requires k < 64
  {
    Shr(word, k)
  }

  /** Skipping to the next set bit. */
  lemma NextSet(word: nat, flags: seq<bool>, from: nat, len: nat)
    requires Shows(word, flags, from, len) && word > 0
    ensures 0 < Ffs(word) <= len && flags[from + Ffs(word) - 1]
    ensures SetIndices(flags, from + Ffs(word)) == SetIndices(flags, from) + [from + Ffs(word) - 1]
    ensures Shows(Shr(word, Ffs(word)), flags, from + Ffs(word), len - Ffs(word))
  {
    hide Ffs, Shr, Rank;
    FfsFinds(word);
    var k := Ffs(word);
    forall i | from <= i < from + k - 1 ensures !flags[i] {
      assert Bit(word, i - from) == flags[from + (i - from)];
    }
    SetIndicesFlat(flags, from, from + k - 1);
    forall i: nat ensures Bit(Shr(word, k), i) == (i < len - k && flags[from + k + i]) {
      BitShr(word, k, i);
      if i < len - k { assert flags[from + (i + k)] == flags[from + k + i]; }
    }
  }

  lemma NoneSet(flags: seq<bool>, from: nat, len: nat)
    requires Shows(0, flags, from, len)
    ensures SetIndices(flags, from + len) == SetIndices(flags, from)
  {
    hide Rank;
    forall i | from <= i < from + len ensures !flags[i] {
      BitOfZero(i - from);
      assert flags[from + (i - from)] == flags[i];
    }
    SetIndicesFlat(flags, from, from + len);
  }

  /** The loop over the set bits of a word.  Unless the word is its top bit alone, no shift is by 64. */
  method ScanWord(word: nat, index: int, ghost flags: seq<bool>, ghost from: nat, ghost len: nat, before: seq<nat>)
    returns (indices: seq<nat>)
    requires Shows(word, flags, from, len) && index == from - 1 && before == SetIndices(flags, from)
    requires len == 64 ==> word != Pow2(63)
    ensures indices == SetIndices(flags, from + len)
  {
    hide Ffs, Shr, Rank, SetIndices, Pow2;
    var rest, last := word, index;
    ghost var p, l := from, len;
    indices := before;
    while rest != 0
      invariant Shows(rest, flags, p, l) && p + l == from + len && last + 1 == p && indices == SetIndices(flags, p)
      invariant l == 64 ==> rest != Pow2(63)
      decreases l
    {
      NextSet(rest, flags, p, l);
      var setBit := Ffs(rest);
      if setBit == 64 { TopBitAlone(rest, flags, p, l); }
      last := last + setBit;
      rest := Shift(rest, setBit);
      indices := indices + [last];
      p, l := p + setBit, l - setBit;
    }
    NoneSet(flags, p, l);
  }

  /** The lowest set bit of a word is its top bit only if that is the only one. */
  lemma TopBitAlone(word: nat, flags: seq<bool>, from: nat, len: nat)
    requires Shows(word, flags, from, len) && word > 0 && Ffs(word) == 64
    ensures len == 64 && word == Pow2(63)
  {
    FfsFinds(word);
    NextSet(word, flags, from, len);
    forall i: nat ensures Bit(word, i) == Bit(Pow2(63), i) {
      PowerBit(63, i);
      if i < 63 { assert i + 1 < Ffs(word); }
    }
    BitExt(word, Pow2(63));
  }

  lemma {:induction false} PowerBit(k: nat, i: nat)
    ensures Bit(Pow2(k), i) == (i == k)
  {
    if k == 0 {
      if i > 0 { BitOfZero(i - 1); }
    } else if i > 0 {
      PowerBit(k - 1, i - 1);
    }
  }

  lemma ShowsPart(word: nat, flags: seq<bool>, row: nat, end: nat, from: nat, len: nat)
    requires Shows(word, flags, row + from, len) && row <= end <= |flags| && row + from + len <= end
    ensures Shows(word, flags[row..end], from, len)
  {
    var part := flags[row..end];
    forall i: nat ensures Bit(word, i) == (i < len && part[from + i]) {
      if i < len { assert part[from + i] == flags[row + from + i]; }
    }
  }

  /** A whole word; its top bit alone is a case of its own. */
  method ScanWhole(word: nat, index: int, ghost flags: seq<bool>, ghost from: nat, before: seq<nat>)
    returns (indices: seq<nat>)
    requires Shows(word, flags, from, 64) && index == from - 1 && before == SetIndices(flags, from)
    ensures indices == SetIndices(flags, from + 64)
  {
    hide Shows, SetIndices, Pow2;
    TopBit();
    if word == TOP_BIT {
      LoneBit(flags, from);
      indices := before + [index + 64];
    } else {
      indices := ScanWord(word, index, flags, from, 64, before);
    }
  }

  /** `bits::findNonNullIndices`: the positions of the set bits relative to `row`. */
  method FindNonNullIndices(row: nat, rowCount: nat, words: seq<nat>) returns (indices: seq<nat>)
    requires AreWords(words) && row + rowCount <= 64 * |words|
    ensures indices == SetIndices(FlagsOf(words)[row..row + rowCount], rowCount)
    ensures |indices| == CountTrue(FlagsOf(words)[row..row + rowCount])
  {
    hide AreWords, FlagsOf, Field, Shr, Low, Rank, Shows, SetIndices, Pow2;
    ghost var flags, part := FlagsOf(words), FlagsOf(words)[row..row + rowCount];
    RankAll(part);
    NothingSet(part);
    indices := [];
    var next, left, index := row / 64, rowCount, -1;
    var used := row - 64 * next;
    if used > 0 {
      if row + rowCount <= 64 * next + 64 {
        FieldShows(words, next, used, rowCount);
        ShowsPart(Field(words[next], used, rowCount), flags, row, row + rowCount, 0, rowCount);
        indices := ScanWord(Field(words[next], used, rowCount), index, part, 0, rowCount, indices);
        return;
      }
      FieldShows(words, next, used, 64 - used);
      ShowsPart(Shr(words[next], used), flags, row, row + rowCount, 0, 64 - used);
      indices := ScanWord(Shr(words[next], used), index, part, 0, 64 - used, indices);
      index := 63 - used;
      next, left := next + 1, left - (64 - used);
    }
    var wordCount := left / 64;
    var remainder := left - 64 * wordCount;
    ghost var first := next;
    for i := 0 to wordCount
      invariant next == first + i && index == 64 * next - row - 1 && indices == SetIndices(part, 64 * next - row)
    {
      WordShows(words, next);
      ShowsPart(words[next], flags, row, row + rowCount, 64 * next - row, 64);
      indices := ScanWhole(words[next], index, part, 64 * next - row, indices);
      next, index := next + 1, index + 64;
    }
    if remainder > 0 {
      FieldShows(words, next, 0, remainder);
      ShowsPart(Field(words[next], 0, remainder), flags, row, row + rowCount, 64 * next - row, remainder);
      indices := ScanWord(Field(words[next], 0, remainder), index, part, 64 * next - row, remainder, indices);
    }
  }

  /** `1ULL << 63` */
  const TOP_BIT: nat := 0x8000_0000_0000_0000

  lemma TopBit()
    ensures TOP_BIT == Pow2(63)
  {
    assert Pow2(10) == 1024;
    assert Pow2(20) == 1024 * Pow2(10) by { PowerSum(10, 10); }
    assert Pow2(40) == Pow2(20) * Pow2(20) by { PowerSum(20, 20); }
    assert Pow2(60) == Pow2(40) * Pow2(20) by { PowerSum(40, 20); }
    assert Pow2(63) == Pow2(60) * Pow2(3) by { PowerSum(60, 3); }
  }

  lemma {:induction false} PowerSum(a: nat, b: nat)
    ensures Pow2(a + b) == Pow2(a) * Pow2(b)
  {
    if b > 0 { PowerSum(a, b - 1); }
  }

  lemma NothingSet(flags: seq<bool>)
    ensures SetIndices(flags, 0) == []
  {
  }

  /** A word that is its top bit alone. */
  lemma LoneBit(flags: seq<bool>, from: nat)
    requires Shows(Pow2(63), flags, from, 64)
    ensures SetIndices(flags, from + 64) == SetIndices(flags, from) + [from + 63]
  {
    hide Rank;
    forall i | from <= i < from + 63 ensures !flags[i] {
      PowerBit(63, i - from);
      assert flags[from + (i - from)] == flags[i];
    }
    SetIndicesFlat(flags, from, from + 63);
    PowerBit(63, 63);
    assert flags[from + 63];
  }

  // ----- packing and copying

  /** `bits::packBitmap`: bit `i` of the bitmap becomes set if `bools[i]` is. */
  method PackBitmap(bools: seq<bool>, words: array<nat>)
    requires |bools| <= 64 * words.Length && AreWords(words[..])
    modifies words
    ensures AreWords(words[..])
    ensures forall i :: 0 <= i < |bools| ==> FlagsOf(words[..])[i] == (old(FlagsOf(words[..]))[i] || bools[i])
    ensures forall i :: |bools| <= i < 64 * words.Length ==> FlagsOf(words[..])[i] == old(FlagsOf(words[..]))[i]
  {
    hide Shl, Bitwise, Bit, Pow2;
    ghost var before := FlagsOf(words[..]);
    var k, j := 0, 0;
    for i := 0 to |bools|
      invariant k == i / 64 && j == i % 64 && AreWords(words[..])
      invariant forall n :: 0 <= n < 64 * words.Length ==>
        FlagsOf(words[..])[n] == if n < i then before[n] || bools[n] else before[n]
    {
      ghost var was := words[..];
      var bit := if bools[i] then 1 else 0;
      words[k] := Or(words[k], Shl(bit, j));
      forall n | 0 <= n < 64 * words.Length
        ensures FlagsOf(words[..])[n] == if n == i then before[n] || bools[n] else FlagsOf(was)[n]
      {
        if n / 64 == k { OrBit(was[k], bools[i], j, n % 64); }
      }
      OrFits(was[k], bools[i], j);
      if j == 63 { k, j := k + 1, 0; } else { j := j + 1; }
    }
  }

  lemma OrBit(word: nat, b: bool, j: nat, i: nat)
    ensures Bit(Or(word, Shl(if b then 1 else 0, j)), i) == (Bit(word, i) || (b && i == j))
  {
    hide Shl, Bitwise;
    var bit := if b then 1 else 0;
    BitBitwise(OrOp, word, Shl(bit, j), i);
    BitShl(bit, j, i);
    if j <= i {
      if b { PowerBit(0, i - j); } else { BitOfZero(i - j); }
    }
  }

  lemma OrFits(word: nat, b: bool, j: nat)
    requires Fits(word, 64) && j < 64
    ensures Fits(Or(word, Shl(if b then 1 else 0, j)), 64)
  {
    hide Bit, Bitwise, Shl, Pow2;
    var after := Or(word, Shl(if b then 1 else 0, j));
    forall i: nat | 64 <= i ensures !Bit(after, i) {
      OrBit(word, b, j, i);
      FitsBit(word, 64, i);
    }
    BitsFit(after, 64);
  }

  /** `BitmapBuilder::copy`: the bits before `begin` stay, those up to the end of the last byte are copied. */
  method CopyBitmap(source: array<Byte>, dest: array<Byte>, begin: nat, end: nat)
    requires begin <= end && (end + 7) / 8 <= source.Length && (end + 7) / 8 <= dest.Length && source != dest
    modifies dest
    ensures forall i: nat :: i < 8 * dest.Length ==>
      Bit(dest[i / 8], i % 8) ==
        if begin <= i < 8 * ((end + 7) / 8) then Bit(source[i / 8], i % 8) else old(Bit(dest[i / 8], i % 8))
  {
    hide Bit, Bitwise, Pow2;
    var firstByte := begin / 8;
    if begin % 8 != 0 {
      MixedByte(dest[firstByte], source[firstByte], begin % 8);
      dest[firstByte] := Or(And(dest[firstByte], Mask(begin % 8)), And(source[firstByte], Xor(255, Mask(begin % 8))));
      firstByte := firstByte + 1;
    }
    var n := (end + 7) / 8;
    ghost var before := dest[..];
    for k := firstByte to n
      invariant forall m :: 0 <= m < dest.Length ==> dest[m] == if firstByte <= m < k then source[m] else before[m]
    {
      dest[k] := source[k];
    }
  }

  lemma MixedByte(d: Byte, s: Byte, r: nat)
    requires r < 8
    ensures Or(And(d, Mask(r)), And(s, Xor(255, Mask(r)))) < 256
    ensures forall i: nat :: i < 8 ==>
      Bit(Or(And(d, Mask(r)), And(s, Xor(255, Mask(r)))), i) == if i < r then Bit(d, i) else Bit(s, i)
  {
    hide Bit, Bitwise, Pow2;
    var low, high := And(d, Mask(r)), And(s, Xor(255, Mask(r)));
    Eight();
    forall i: nat ensures Bit(Or(low, high), i) == (i < 8 && if i < r then Bit(d, i) else Bit(s, i)) {
      BitBitwise(OrOp, low, high, i);
      BitBitwise(AndOp, d, Mask(r), i);
      BitBitwise(AndOp, s, Xor(255, Mask(r)), i);
      BitBitwise(XorOp, 255, Mask(r), i);
      BitMask(r, i);
      BitMask(8, i);
      if i >= 8 {
        FitsBit(d, 8, i);
        FitsBit(s, 8, i);
      }
    }
    BitsFit(Or(low, high), 8);
  }

  lemma Eight()
    ensures Pow2(8) == 256 && Mask(8) == 255
  {
  }
}
