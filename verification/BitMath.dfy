/**
  Natural numbers read as strings of bits.  A machine word is the number it holds; shifts, masks and
  bitwise operators are defined on numbers, and a buffer is the little-endian number of its bytes.
  Every operator is characterised by the bits of its result, and numbers with equal bits are equal.
 */
module BitMath {

  type Byte = x: int | 0 <= x < 256

  function Pow2(n: nat): (p: nat)
    ensures p > 0
  {
    if n == 0 then 1 else 2 * Pow2(n - 1)
  }

  predicate Bit(n: nat, i: nat)
  {
    if i == 0 then n % 2 == 1 else Bit(n / 2, i - 1)
  }

  /** `n >> k` */
  function Shr(n: nat, k: nat): nat
  {
    if k == 0 then n else Shr(n / 2, k - 1)
  }

  /** `n << k`, before truncation to a word */
  function Shl(n: nat, k: nat): nat
  {
    if k == 0 then n else 2 * Shl(n, k - 1)
  }

  /** The low `k` bits of `n`, that is `n & mask` or a truncation to `k` bits. */
  function Low(n: nat, k: nat): nat
  {
    if k == 0 then 0 else n % 2 + 2 * Low(n / 2, k - 1)
  }

  datatype Op = OrOp | AndOp | XorOp
  {
    predicate Apply(x: bool, y: bool)
    {
      match this
      case OrOp => x || y
      case AndOp => x && y
      case XorOp => x != y
    }
  }

  function Bitwise(op: Op, a: nat, b: nat): nat
    decreases a + b
  {
    if a == 0 && b == 0 then 0
    else (if op.Apply(a % 2 == 1, b % 2 == 1) then 1 else 0) + 2 * Bitwise(op, a / 2, b / 2)
  }

  function Or(a: nat, b: nat): nat { Bitwise(OrOp, a, b) }

  function Xor(a: nat, b: nat): nat { Bitwise(XorOp, a, b) }

  function And(a: nat, b: nat): nat { Bitwise(AndOp, a, b) }

  /** A word of `len` bits from bit `start` of `n`. */
  function Field(n: nat, start: nat, len: nat): nat
  {
    Low(Shr(n, start), len)
  }

  /** The number whose little-endian byte representation is `b`. */
  function LeNat(b: seq<Byte>): nat
  {
    if b == [] then 0 else b[0] + 256 * LeNat(b[1..])
  }

  predicate Fits(n: nat, len: nat)
  {
    n < Pow2(len)
  }

  // ----- division

  lemma MulMono(a: int, b: int, c: nat)
    requires a <= b
    ensures a * c <= b * c
  {
  }

  lemma DivModUnique(n: int, d: int, q: int, r: int)
    requires d > 0 && n == q * d + r && 0 <= r < d
    ensures n / d == q && n % d == r
  {
    if n / d > q {
      MulMono(q + 1, n / d, d);
    } else if n / d < q {
      MulMono(n / d + 1, q, d);
    }
  }

  // ----- bits determine the number

  lemma {:induction false} BitExt(a: nat, b: nat)
    requires forall i: nat :: Bit(a, i) == Bit(b, i)
    ensures a == b
  {
    if a == 0 && b == 0 {
    } else {
      assert Bit(a, 0) == Bit(b, 0);
      forall i: nat ensures Bit(a / 2, i) == Bit(b / 2, i) {
        assert Bit(a, i + 1) == Bit(b, i + 1);
      }
      BitExt(a / 2, b / 2);
    }
  }

  lemma {:induction false} BitOfZero(i: nat)
    ensures !Bit(0, i)
  {
    if i > 0 { BitOfZero(i - 1); }
  }

  lemma {:induction false} FitsBit(n: nat, len: nat, i: nat)
    requires Fits(n, len) && len <= i
    ensures !Bit(n, i)
  {
    if len == 0 { BitOfZero(i); } else { FitsBit(n / 2, len - 1, i - 1); }
  }

  lemma {:induction false} BitsFit(n: nat, len: nat)
    requires forall i: nat :: len <= i ==> !Bit(n, i)
    ensures Fits(n, len)
  {
    if len == 0 {
      forall i: nat ensures Bit(n, i) == Bit(0, i) { BitOfZero(i); }
      BitExt(n, 0);
    } else {
      forall i: nat | len - 1 <= i ensures !Bit(n / 2, i) {
        assert !Bit(n, i + 1);
      }
      BitsFit(n / 2, len - 1);
    }
  }

  // ----- the bits of each operator

  lemma {:induction false} BitShr(n: nat, k: nat, i: nat)
    ensures Bit(Shr(n, k), i) == Bit(n, i + k)
  {
    if k > 0 { BitShr(n / 2, k - 1, i); }
  }

  lemma {:induction false} BitShl(n: nat, k: nat, i: nat)
    ensures Bit(Shl(n, k), i) == (k <= i && Bit(n, i - k))
  {
    if k > 0 && i > 0 { BitShl(n, k - 1, i - 1); }
  }

  lemma {:induction false} BitLow(n: nat, k: nat, i: nat)
    ensures Bit(Low(n, k), i) == (i < k && Bit(n, i))
  {
    if k == 0 { BitOfZero(i); } else if i > 0 { BitLow(n / 2, k - 1, i - 1); }
  }

  lemma {:induction false} LowFits(n: nat, k: nat)
    ensures Fits(Low(n, k), k)
  {
    if k > 0 { LowFits(n / 2, k - 1); }
  }

  lemma {:induction false} LowOfFit(n: nat, k: nat)
    requires Fits(n, k)
    ensures Low(n, k) == n
  {
    if k > 0 { LowOfFit(n / 2, k - 1); }
  }

  lemma {:induction false} BitBitwise(op: Op, a: nat, b: nat, i: nat)
    ensures Bit(Bitwise(op, a, b), i) == op.Apply(Bit(a, i), Bit(b, i))
  {
    if a == 0 && b == 0 {
      BitOfZero(i);
    } else if i > 0 {
      BitBitwise(op, a / 2, b / 2, i - 1);
    }
  }

  lemma BitField(n: nat, s: nat, l: nat, i: nat)
    ensures Bit(Field(n, s, l), i) == (i < l && Bit(n, s + i))
  {
    BitLow(Shr(n, s), l, i);
    BitShr(n, s, i);
  }

  lemma {:induction false} BitLeNat(b: seq<Byte>, i: nat)
    ensures Bit(LeNat(b), i) == (i < 8 * |b| && Bit(b[i / 8], i % 8))
  {
    if b == [] {
      BitOfZero(i);
    } else {
      BitOfByteThen(b[0], LeNat(b[1..]), i);
      if i >= 8 { BitLeNat(b[1..], i - 8); }
    }
  }

  lemma BitOfByteThen(lo: Byte, hi: nat, i: nat)
    ensures Bit(lo + 256 * hi, i) == if i < 8 then Bit(lo, i) else Bit(hi, i - 8)
  {
    BitOfConcat(lo, hi, 8, i);
  }

  lemma {:induction false} BitOfConcat(lo: nat, hi: nat, l: nat, i: nat)
    requires Fits(lo, l)
    ensures Bit(lo + Pow2(l) * hi, i) == if i < l then Bit(lo, i) else Bit(hi, i - l)
  {
    if l > 0 {
      var p := Pow2(l - 1) * hi;
      assert Pow2(l) * hi == 2 * p;
      assert (lo + 2 * p) / 2 == lo / 2 + p && (lo + 2 * p) % 2 == lo % 2;
      if i > 0 { BitOfConcat(lo / 2, hi, l - 1, i - 1); }
    }
  }

  /** `(1 << n) - 1`: a mask of `n` ones. */
  function Mask(n: nat): nat
  {
    Pow2(n) - 1
  }

  lemma {:induction false} BitMask(n: nat, i: nat)
    ensures Bit(Mask(n), i) == (i < n)
  {
    if n == 0 { BitOfZero(i); } else if i > 0 { BitMask(n - 1, i - 1); }
  }

  lemma {:induction false} ShrFits(n: nat, k: nat, len: nat)
    requires Fits(n, len)
    ensures Fits(Shr(n, k), len)
  {
    if k > 0 { ShrFits(n / 2, k - 1, len); }
  }

  lemma {:induction false} FitsMore(n: nat, l: nat, m: nat)
    requires Fits(n, l) && l <= m
    ensures Fits(n, m)
  {
    if l < m { FitsMore(n, l, m - 1); }
  }

  // ----- the operators as arithmetic

  lemma {:induction false} ShlIsProduct(n: nat, k: nat)
    ensures Shl(n, k) == n * Pow2(k)
  {
    if k > 0 { ShlIsProduct(n, k - 1); }
  }

  /** `n` is its low `k` bits plus the rest shifted back, so `Shr` and `Low` are quotient and remainder. */
  lemma {:induction false} ShrLowSplit(n: nat, k: nat)
    ensures n == Low(n, k) + Shl(Shr(n, k), k) && Low(n, k) < Pow2(k)
  {
    if k > 0 { ShrLowSplit(n / 2, k - 1); }
  }

  /** Bits that do not overlap: `or` is addition. */
  lemma {:induction false} OrIsSum(lo: nat, hi: nat, l: nat)
    requires Fits(lo, l)
    ensures Or(lo, Shl(hi, l)) == lo + Shl(hi, l)
  {
    if l == 0 {
      OrZero(hi);
    } else {
      OrIsSum(lo / 2, hi, l - 1);
    }
  }

  lemma {:induction false} OrZero(n: nat)
    ensures Or(0, n) == n
    decreases n
  {
    if n > 0 { OrZero(n / 2); }
  }
}
