/** Little-endian bit sequences and the numbers they denote. Numbers may be negative: their
    bits are those of the sign-extended two's complement form. */
module Bits {
  import opened ModArith

  type Bit = b: nat | b <= 1

  function Pow2(n: nat): (p: nat)
    ensures p >= 1
  {
    if n == 0 then 1 else 2 * Pow2(n - 1)
  }

  function Value(bits: seq<Bit>): nat {
    if bits == [] then 0 else bits[0] + 2 * Value(bits[1..])
  }

  /** (n >> b) & 1 */
  function BitAt(n: int, b: nat): Bit
    decreases b
  {
    if b == 0 then n % 2 else BitAt(n / 2, b - 1)
  }

  /** n >> k, arithmetic */
  function Shr(n: int, k: nat): int
    decreases k
  {
    if k == 0 then n else Shr(n / 2, k - 1)
  }

  /** n & ((1 << len) - 1) */
  function Mask(n: int, len: nat): nat
    decreases len
  {
    if len == 0 then 0 else n % 2 + 2 * Mask(n / 2, len - 1)
  }

  /** a | b */
  function Or(a: nat, b: nat): (r: nat)
    decreases a + b
  {
    if a == 0 && b == 0 then 0
    else (if a % 2 == 1 || b % 2 == 1 then 1 else 0) + 2 * Or(a / 2, b / 2)
  }

  lemma {:induction false} OrZero(b: nat)
    ensures Or(0, b) == b
  {
    if b > 0 {
      OrZero(b / 2);
    }
  }

  /** Parts that do not overlap: the bitwise or is their sum. */
  lemma {:induction false} OrIsSum(lo: nat, hi: nat, k: nat)
    requires lo < Pow2(k)
    ensures Or(lo, Pow2(k) * hi) == lo + Pow2(k) * hi
    decreases k
  {
    if k == 0 {
      OrZero(hi);
    } else {
      var shifted := Pow2(k) * hi;
      Double(Pow2(k - 1), hi);
      assert shifted % 2 == 0 && shifted / 2 == Pow2(k - 1) * hi;
      OrIsSum(lo / 2, hi, k - 1);
      if lo == 0 && shifted == 0 {
      } else {
        assert Or(lo, shifted) == lo % 2 + 2 * Or(lo / 2, shifted / 2);
      }
    }
  }

  /** The low `len` bits of a number. */
  function BitsOf(n: int, len: nat): (bits: seq<Bit>)
    ensures |bits| == len
  {
    seq(len, b requires 0 <= b => BitAt(n, b))
  }

  lemma {:induction false} Pow2Add(m: nat, n: nat)
    ensures Pow2(m + n) == Pow2(m) * Pow2(n)
  {
    if m > 0 {
      Pow2Add(m - 1, n);
      Double(Pow2(m - 1), Pow2(n));
    }
  }

  lemma {:induction false} ValueBound(bits: seq<Bit>)
    ensures Value(bits) < Pow2(|bits|)
  {
    if bits != [] {
      ValueBound(bits[1..]);
    }
  }

  lemma {:induction false} ValueConcat(a: seq<Bit>, b: seq<Bit>)
    ensures Value(a + b) == Value(a) + Pow2(|a|) * Value(b)
  {
    if a == [] {
      assert a + b == b;
    } else {
      ValueConcat(a[1..], b);
      assert (a + b)[1..] == a[1..] + b;
      Double(Pow2(|a| - 1), Value(b));
    }
  }

  /** The bits of a value are the bits it was made of. */
  lemma {:induction false} BitValue(bits: seq<Bit>, j: nat)
    requires j < |bits|
    ensures BitAt(Value(bits), j) == bits[j]
  {
    if j > 0 {
      BitValue(bits[1..], j - 1);
    }
  }

  lemma {:induction false} MaskIsValue(n: int, len: nat)
    ensures Mask(n, len) == Value(BitsOf(n, len))
    decreases len
  {
    if len > 0 {
      MaskIsValue(n / 2, len - 1);
      assert BitsOf(n, len)[1..] == BitsOf(n / 2, len - 1);
    }
  }

  lemma {:induction false} BitOfShr(n: int, k: nat, b: nat)
    ensures BitAt(Shr(n, k), b) == BitAt(n, k + b)
    decreases k
  {
    if k > 0 {
      BitOfShr(n / 2, k - 1, b);
    }
  }

  /** Masking a shifted number reads a slice of its bits. */
  lemma MaskedShift(n: int, off: nat, len: nat, width: nat)
    requires off + len <= width
    ensures Mask(Shr(n, off), len) == Value(BitsOf(n, width)[off..off + len])
  {
    MaskIsValue(Shr(n, off), len);
    forall b | 0 <= b < len ensures BitAt(Shr(n, off), b) == BitAt(n, off + b) {
      BitOfShr(n, off, b);
    }
    assert BitsOf(Shr(n, off), len) == BitsOf(n, width)[off..off + len];
  }

  lemma HalfMod(n: int, p: nat)
    requires 0 < p
    ensures n % (2 * p) == n % 2 + 2 * (n / 2 % p)
  {
    var h := n / 2;
    var q, r := h / p, h % p;
    assert h == p * q + r;
    Double(p, q);
    Split(n, 2 * p, q, 2 * r + n % 2);
  }

  lemma {:induction false} MaskIsMod(n: int, len: nat)
    ensures Mask(n, len) == n % Pow2(len)
    decreases len
  {
    if len > 0 {
      MaskIsMod(n / 2, len - 1);
      HalfMod(n, Pow2(len - 1));
    }
  }

  lemma ValueOfBits(n: int, len: nat)
    ensures Value(BitsOf(n, len)) == n % Pow2(len)
  {
    MaskIsValue(n, len);
    MaskIsMod(n, len);
  }

  /** A non-negative number below 2^len is the value of its low `len` bits. */
  lemma ValueOfBitsExact(n: nat, len: nat)
    requires n < Pow2(len)
    ensures Value(BitsOf(n, len)) == n
  {
    ValueOfBits(n, len);
    DivModIs(n, Pow2(len), 0, n);
  }

  lemma MaskBound(n: int, len: nat)
    ensures Mask(n, len) < Pow2(len)
  {
    MaskIsValue(n, len);
    ValueBound(BitsOf(n, len));
  }
}
