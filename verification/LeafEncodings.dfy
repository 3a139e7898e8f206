/**
  The encodings without children.  Each is a cursor over its rows: `at` is the number of rows read so
  far, and reading or skipping moves it.
 */
module LeafEncodings {
  import opened BitMath
  import opened FixedBitArrays
  import opened Sequences
  import opened Format
  import Varints

  // ----- Constant

  class ConstantEncoding {
    const value: Value
    const rowCount: nat
    ghost const rows: seq<Value>
    ghost var at: nat

    constructor (value: Value, rowCount: nat)
      ensures Valid() && at == 0 && rows == Repeat(value, rowCount)
    {
      this.value := value;
      this.rowCount := rowCount;
      rows := Repeat(value, rowCount);
      at := 0;
    }

    ghost predicate Valid()
      reads this
    {
      at <= |rows| == rowCount && rows == Repeat(value, |rows|)
    }

    method Reset()
      requires Valid()
      modifies this
      ensures Valid() && at == 0
    {
      at := 0;
    }

    method Skip(n: nat)
      requires Valid() && at + n <= |rows|
      modifies this
      ensures Valid() && at == old(at) + n
    {
      at := at + n;
    }

    method Materialize(n: nat) returns (output: seq<Value>)
      requires Valid() && at + n <= |rows|
      modifies this
      ensures Valid() && at == old(at) + n && output == rows[old(at)..at]
    {
      output := [];
      for i := 0 to n
        invariant output == Repeat(value, i)
      {
        output := output + [value];
      }
      at := at + n;
    }
  }

  // ----- Trivial

  class TrivialEncoding {
    const values: seq<Value>
    const rowCount: nat
    ghost const rows: seq<Value>
    var row: nat
    ghost var at: nat

    constructor (raw: seq<Byte>, size: nat, rowCount: nat)
      requires |raw| == rowCount * size
      ensures Valid() && at == 0 && rows == Numbers(raw, size, rowCount)
    {
      values := Numbers(raw, size, rowCount);
      this.rowCount := rowCount;
      rows := Numbers(raw, size, rowCount);
      row := 0;
      at := 0;
    }

    ghost predicate Valid()
      reads this
    {
      row == at <= |rows| == rowCount && values == rows
    }

    method Reset()
      requires Valid()
      modifies this
      ensures Valid() && at == 0
    {
      row, at := 0, 0;
    }

    method Skip(n: nat)
      requires Valid() && at + n <= |rows|
      modifies this
      ensures Valid() && at == old(at) + n
    {
      row, at := row + n, at + n;
    }

    method Materialize(n: nat) returns (output: seq<Value>)
      requires Valid() && at + n <= |rows|
      modifies this
      ensures Valid() && at == old(at) + n && output == rows[old(at)..at]
    {
      output := values[row..row + n];
      row, at := row + n, at + n;
    }
  }

  class TrivialBoolEncoding {
    const bitmap: seq<Byte>
    const rowCount: nat
    ghost const rows: seq<Value>
    var row: nat
    ghost var at: nat

    constructor (bitmap: seq<Byte>, rowCount: nat)
      requires |bitmap| == BufferSize(rowCount, 1)
      ensures Valid() && at == 0 && rows == Bits(bitmap, rowCount)
    {
      this.bitmap := bitmap;
      this.rowCount := rowCount;
      rows := Bits(bitmap, rowCount);
      row := 0;
      at := 0;
    }

    ghost predicate Valid()
      reads this
    {
      row == at <= |rows| == rowCount && |bitmap| == BufferSize(|rows|, 1) && rows == Bits(bitmap, |rows|)
    }

    method Reset()
      requires Valid()
      modifies this
      ensures Valid() && at == 0
    {
      row, at := 0, 0;
    }

    method Skip(n: nat)
      requires Valid() && at + n <= |rows|
      modifies this
      ensures Valid() && at == old(at) + n
    {
      row, at := row + n, at + n;
    }

    /** The rows up to `end`, bit by bit. */
    method ReadBits(end: nat) returns (output: seq<Value>)
      requires Valid() && at <= end <= |rows|
      modifies this
      ensures Valid() && at == end && output == rows[old(at)..at]
    {
      hide BufferSize;
      output := [];
      while row < end
        invariant Valid() && old(at) <= at <= end && output == rows[old(at)..at]
      {
        output := output + [Flag(BufBit(bitmap, row))];
        row, at := row + 1, at + 1;
      }
    }

    /** 64 rows from one word load. */
    method ReadWord(word: nat) returns (output: seq<Value>)
      requires Valid() && at + 64 <= |rows|
      requires WordOf(word, bitmap, at)
      modifies this
      ensures Valid() && at == old(at) + 64 && output == rows[old(at)..at]
    {
      hide BufferSize, Bits, ShiftedBy;
      output := [];
      var w := word;
      BitsAre(bitmap, rows);
      NotShifted(word);
      for j := 0 to 64
        invariant Valid() && at == old(at) && at + 64 <= |rows|
        invariant |output| == j && forall k :: 0 <= k < j ==> output[k] == rows[at + k]
        invariant ShiftedBy(w, word, j)
      {
        ShiftOne(w, word, j);
        output := output + [Flag(w % 2 == 1)];
        w := w / 2;
      }
      row, at := row + 64, at + 64;
    }

    method ReadWords(numWords: nat) returns (output: seq<Value>)
      requires Valid() && at % 64 == 0 && at + 64 * numWords <= |rows|
      modifies this
      ensures Valid() && at == old(at) + 64 * numWords && output == rows[old(at)..at]
    {
      hide Bits, Valid, WordOf, BufferSize;
      CursorOf(this);
      output := [];
      ghost var start := at;
      var nextWord := row / 8;
      for i := 0 to numWords
        invariant Valid() && at == start + 64 * i <= |rows| && output == rows[start..at]
      {
        WordInBitmap(start + 64 * i, |rows|);
        CursorOf(this);
        var offset := nextWord + 8 * i;
        assert 8 * offset == at;
        LoadedWord(bitmap, offset);
        var word := ReadWord(LeNat(bitmap[offset..offset + 8]));
        output := output + word;
      }
    }

    /** Aligns to a word, goes over whole words, then reads the remainder. */
    method Materialize(n: nat) returns (output: seq<Value>)
      requires Valid() && at + n <= |rows|
      modifies this
      ensures Valid() && at == old(at) + n && output == rows[old(at)..at]
    {
      hide Bits, Valid, BufferSize;
      CursorOf(this);
      var rowsToWord := if row % 64 == 0 then 0 else 64 - row % 64;
      if rowsToWord >= n {
        output := ReadBits(row + n);
        return;
      }
      output := ReadBits(row + rowsToWord);
      CursorOf(this);
      var rowsRemaining := n - rowsToWord;
      var numWords := rowsRemaining / 64;
      var words := ReadWords(numWords);
      output := output + words;
      CursorOf(this);
      var rest := ReadBits(row + (rowsRemaining - 64 * numWords));
      output := output + rest;
    }
  }

  ghost predicate WordOf(word: nat, bitmap: seq<Byte>, bit: nat)
  {
    forall j: nat :: j < 64 ==> Bit(word, j) == BufBit(bitmap, bit + j)
  }

  lemma LoadedWord(bitmap: seq<Byte>, offset: nat)
    requires offset + 8 <= |bitmap|
    ensures WordOf(LeNat(bitmap[offset..offset + 8]), bitmap, 8 * offset)
  {
    var word := LeNat(bitmap[offset..offset + 8]);
    forall j: nat | j < 64 ensures Bit(word, j) == BufBit(bitmap, 8 * offset + j) {
      WordBit(bitmap, offset, j);
    }
  }

  ghost predicate ShiftedBy(w: nat, word: nat, j: nat)
  {
    forall k: nat :: Bit(w, k) == Bit(word, j + k)
  }

  lemma NotShifted(word: nat)
    ensures ShiftedBy(word, word, 0)
  {
  }

  lemma ShiftOne(w: nat, word: nat, j: nat)
    requires ShiftedBy(w, word, j)
    ensures ShiftedBy(w / 2, word, j + 1)
    ensures (w % 2 == 1) == Bit(word, j)
  {
    assert Bit(w, 0) == Bit(word, j + 0);
    var half := w / 2;
    forall k: nat ensures Bit(half, k) == Bit(word, j + 1 + k) {
      assert Bit(w, k + 1) == Bit(word, j + (k + 1));
    }
  }

  lemma BitsAre(bitmap: seq<Byte>, rows: seq<Value>)
    requires rows == Bits(bitmap, |rows|)
    ensures forall k :: 0 <= k < |rows| ==> rows[k] == Flag(BufBit(bitmap, k))
  {
  }

  lemma CursorOf(e: TrivialBoolEncoding)
    requires e.Valid()
    ensures e.row == e.at <= |e.rows| && |e.bitmap| == BufferSize(|e.rows|, 1)
  {
  }

  lemma WordInBitmap(row: nat, rowCount: nat)
    requires row + 64 <= rowCount
    ensures row / 8 + 8 <= BufferSize(rowCount, 1)
  {
  }

  // ----- FixedBitWidth

  class FixedBitWidthEncoding {
    const packed: FixedBitArray
    const baseline: nat
    const bits: nat
    const rowCount: nat
    ghost const rows: seq<Value>
    var row: nat
    ghost var at: nat

    constructor (packed: FixedBitArray, baseline: nat, bits: nat, rowCount: nat)
      requires packed.Holds(rowCount) && packed.bitWidth <= bits <= 64
      ensures Valid() && at == 0 && this.packed == packed
      ensures rows == Packed(packed.buffer[..], packed.bitWidth, baseline, bits, rowCount)
    {
      this.packed := packed;
      this.baseline := baseline;
      this.bits := bits;
      this.rowCount := rowCount;
      rows := Packed(packed.buffer[..], packed.bitWidth, baseline, bits, rowCount);
      row := 0;
      at := 0;
    }

    ghost predicate Valid()
      reads this, packed.buffer
    {
      && row == at <= |rows| == rowCount && packed.Holds(|rows|) && packed.bitWidth <= bits <= 64
      && rows == Packed(packed.buffer[..], packed.bitWidth, baseline, bits, |rows|)
    }

    method Reset()
      requires Valid()
      modifies this
      ensures Valid() && at == 0
    {
      row, at := 0, 0;
    }

    method Skip(n: nat)
      requires Valid() && at + n <= |rows|
      modifies this
      ensures Valid() && at == old(at) + n
    {
      row, at := row + n, at + n;
    }

    /** Four-byte types and narrow eight-byte ones take the bulk path, the others read slot by slot. */
    method Materialize(n: nat) returns (output: seq<Value>)
      requires Valid() && at + n <= |rows|
      modifies this
      ensures Valid() && at == old(at) + n && output == rows[old(at)..at]
    {
      hide BufferSize, Slot, Wrapped;
      if bits == 32 {
        packed.HoldsMono(row + n, |rows|);
        var numbers := packed.BulkGet32(row, n, baseline, 32);
        output := Nums(numbers);
      } else if bits == 64 && packed.bitWidth <= 32 {
        packed.HoldsMono(row + n, |rows|);
        var numbers := packed.BulkGet32(row, n, baseline, 64);
        output := Nums(numbers);
      } else {
        output := [];
        for i := row to row + n
          invariant row == old(row) && at == old(at) && output == rows[at..i]
        {
          packed.HoldsMono(i + 1, |rows|);
          var value := packed.Get(i);
          output := output + [Num(Wrapped(value + baseline, bits))];
        }
      }
      row, at := row + n, at + n;
    }
  }

  // ----- Varint

  class VarintEncoding {
    const data: seq<Byte>
    const baseline: nat
    const bits: nat
    const rowCount: nat
    ghost const rows: seq<Value>
    var row: nat
    var pos: nat
    ghost var at: nat

    constructor (data: seq<Byte>, baseline: nat, bits: nat, rowCount: nat)
      requires Varints.Width(bits) && baseline < Pow2(bits) && Varints.Stream(data, 0, rowCount, bits)
      ensures Valid() && at == 0 && rows == Shifted(Varints.Values(data, 0, rowCount, bits), baseline, bits)
    {
      this.data := data;
      this.baseline := baseline;
      this.bits := bits;
      this.rowCount := rowCount;
      rows := Shifted(Varints.Values(data, 0, rowCount, bits), baseline, bits);
      row := 0;
      pos := 0;
      at := 0;
      new;
      Varints.NothingRead(data, 0);
    }

    ghost predicate Valid()
      reads this
    {
      && Varints.Width(bits) && baseline < Pow2(bits) && row == at <= |rows| == rowCount
      && Varints.Stream(data, 0, |rows|, bits) && pos == Varints.EndOf(data, 0, at)
      && rows == Shifted(Varints.Values(data, 0, |rows|, bits), baseline, bits)
    }

    method Reset()
      requires Valid()
      modifies this
      ensures Valid() && at == 0
    {
      Varints.NothingRead(data, 0);
      row, pos, at := 0, 0, 0;
    }

    method Skip(n: nat)
      requires Valid() && at + n <= |rows|
      modifies this
      ensures Valid() && at == old(at) + n
    {
      hide Varints.Stream, Varints.EndOf, Shifted;
      StreamSplit(data, at, n, |rows|, bits);
      pos := Varints.BulkVarintSkip(n, data, pos);
      row, at := row + n, at + n;
    }

    method Materialize(n: nat) returns (output: seq<Value>)
      requires Valid() && at + n <= |rows|
      modifies this
      ensures Valid() && at == old(at) + n && output == rows[old(at)..at]
    {
      hide Varints.Stream, Varints.EndOf, Varints.Values, Wrapped;
      StreamSplit(data, at, n, |rows|, bits);
      var numbers, end := Varints.BulkVarintDecode(n, data, pos, bits);
      output := Nums(numbers);
      if baseline != 0 {
        for i := 0 to n
          invariant |output| == n
          invariant forall j :: 0 <= j < i ==> output[j] == Num(Wrapped(numbers[j] + baseline, bits))
          invariant forall j :: i <= j < n ==> output[j] == Num(numbers[j])
        {
          output := output[i := Num(Wrapped(output[i].n + baseline, bits))];
        }
      } else {
        forall j | 0 <= j < n ensures numbers[j] == Wrapped(numbers[j] + 0, bits) {
          ValuesFit(data, pos, n, bits, j);
          SmallMod(numbers[j], bits);
        }
      }
      assert output == Shifted(numbers, baseline, bits);
      ShiftedSlice(Varints.Values(data, 0, |rows|, bits), baseline, bits, at, n);
      pos := end;
      row, at := row + n, at + n;
    }
  }

  lemma SmallMod(n: nat, bits: nat)
    requires n < Pow2(bits)
    ensures Wrapped(n + 0, bits) == n
  {
    hide Pow2;
    DivModUnique(n, Pow2(bits), 0, n);
  }

  lemma ShiftedSlice(values: seq<nat>, baseline: nat, bits: nat, from: nat, n: nat)
    requires from + n <= |values|
    ensures Shifted(values, baseline, bits)[from..from + n] == Shifted(values[from..from + n], baseline, bits)
  {
  }

  lemma {:induction false} ValuesFit(b: seq<Byte>, pos: nat, n: nat, bits: nat, i: nat)
    requires Varints.Stream(b, pos, n, bits) && i < n
    ensures Varints.Values(b, pos, n, bits)[i] < Pow2(bits)
    decreases n
  {
    if i == 0 {
      Varints.EndAfter(b, pos, 1);
      LowFits(Varints.Groups(b[pos..Varints.EndOf(b, pos, 1)]), bits);
    } else {
      ValuesFit(b, Varints.EndOf(b, pos, 1), n - 1, bits, i - 1);
    }
  }

  /** Rows [m, m + n) of a stream of varints are a stream of their own. */
  lemma {:induction false} StreamPart(b: seq<Byte>, pos: nat, m: nat, n: nat, total: nat, bits: nat)
    requires pos <= |b| && Varints.Stream(b, pos, total, bits) && m + n <= total
    ensures Varints.EndOf(b, pos, m) <= |b| && Varints.Stream(b, Varints.EndOf(b, pos, m), n, bits)
    ensures Varints.Values(b, Varints.EndOf(b, pos, m), n, bits) == Varints.Values(b, pos, total, bits)[m..m + n]
    decreases m + n
  {
    hide Varints.Groups, Varints.EndOf;
    Varints.NothingRead(b, pos);
    if m > 0 {
      var end := Varints.EndOf(b, pos, 1);
      StreamPart(b, end, m - 1, n, total - 1, bits);
      Varints.EndInTwo(b, pos, 1, m - 1);
      assert Varints.Values(b, pos, total, bits)[1..] == Varints.Values(b, end, total - 1, bits);
      assert Varints.Values(b, pos, total, bits)[1..][m - 1..m - 1 + n] ==
        Varints.Values(b, pos, total, bits)[m..m + n];
    } else if n > 0 {
      var end := Varints.EndOf(b, pos, 1);
      StreamPart(b, end, 0, n - 1, total - 1, bits);
      Varints.NothingRead(b, end);
      assert Varints.Values(b, pos, total, bits)[..n] ==
        Varints.Values(b, pos, total, bits)[..1] + Varints.Values(b, end, total - 1, bits)[..n - 1];
    }
  }

  lemma StreamSplit(b: seq<Byte>, m: nat, n: nat, total: nat, bits: nat)
    requires Varints.Stream(b, 0, total, bits) && m + n <= total
    ensures
      var from := Varints.EndOf(b, 0, m);
      && from <= |b| && Varints.EndOf(b, from, n) == Varints.EndOf(b, 0, m + n) <= |b|
      && Varints.Stream(b, from, n, bits)
      && Varints.Values(b, from, n, bits) == Varints.Values(b, 0, total, bits)[m..m + n]
  {
    hide Varints.Groups, Varints.EndOf, Varints.Stream, Varints.Values;
    StreamPart(b, 0, m, n, total, bits);
    Varints.EndInTwo(b, 0, m, n);
    Varints.StreamEnds(b, Varints.EndOf(b, 0, m), n, bits);
  }
}
