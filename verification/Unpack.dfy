/** Unpacking little-endian b-bit fields from signed 32-bit words, fields crossing word
    boundaries included. */
module Unpack {
  import opened ModArith
  import opened Prelude
  import opened Bits

  predicate IsInt32(w: int) { -0x8000_0000 <= w < 0x8000_0000 }

  /** The signed word with an unsigned word's bits. */
  function Signed(u: nat): (w: int)
    requires u < 0x1_0000_0000
    ensures IsInt32(w)
  {
    if u < 0x8000_0000 then u else u - 0x1_0000_0000
  }

  /** Gather `b` bits from bit `start` of sign-extended words: the low part from one word, the
      rest from the next, added up because they do not overlap. */
  function Gather(vg: seq<int>, start: nat, b: nat): (r: nat)
    requires 1 <= b <= 32 && start + b <= 32 * |vg|
  {
    var word, off := start / 32, start % 32;
    var lo := Min(32 - off, b);
    var out := Mask(Shr(vg[word], off), lo);
    if lo < b then out + Mask(vg[word + 1], b - lo) * Pow2(lo) else out
  }

  /** Adding the parts is or-ing them. */
  lemma GatherIsOr(vg: seq<int>, word: nat, off: nat, lo: nat, b: nat)
    requires lo < b && word + 1 < |vg|
    ensures
      var low, high := Mask(Shr(vg[word], off), lo), Mask(vg[word + 1], b - lo);
      Or(low, Pow2(lo) * high) == low + high * Pow2(lo)
  {
    MaskBound(Shr(vg[word], off), lo);
    OrIsSum(Mask(Shr(vg[word], off), lo), Mask(vg[word + 1], b - lo), lo);
  }

  /** A row's words padded with zeros to whole groups of `b`. */
  function Padded(row: seq<int>, b: nat): (p: seq<int>)
    requires 1 <= b
    ensures |p| % b == 0 && row <= p && |p| < |row| + b
    ensures forall i | |row| <= i < |p| :: p[i] == 0
  {
    var pad := -|row| % b;
    assert (|row| + pad) % b == 0 by {
      var q := -|row| / b;
      assert |row| + pad == -q * b;
      AddMultiple(0, b, -q);
      DivModIs(0, b, 0, 0);
    }
    row + seq(pad, _ => 0)
  }

  lemma GroupOf(n: nat, b: nat, i: nat)
    requires 1 <= b && n % b == 0 && i < n / b * 32
    ensures i / 32 * b + b <= n && i % 32 * b + b <= 32 * b
  {
    BlockFits(i / 32, n / b, b);
    BlockFits(i % 32, 32, b);
  }

  /** Element `i` of a padded row: 32 elements per group of `b` words, recentred. No element
      needs a word past its group. */
  function Element(p: seq<int>, b: nat, i: nat): int
    requires 1 <= b <= 8 && |p| % b == 0 && i < |p| / b * 32
  {
    GroupOf(|p|, b, i);
    Gather(p[i / 32 * b..i / 32 * b + b], i % 32 * b, b) - Pow2(b - 1)
  }

  /** `unpack_from_int32` on one row, cut to `cols`. */
  function UnpackRow(row: seq<int>, b: nat, cols: nat): (r: seq<int>)
    requires 1 <= b <= 8
  {
    var p := Padded(row, b);
    var n := |p| / b * 32;
    seq(Min(n, cols), i requires 0 <= i < n => Element(p, b, i))
  }

  function WordBits(w: int): (s: seq<Bit>)
    ensures |s| == 32
  {
    BitsOf(w, 32)
  }

  /** The little-endian bit stream of a row. */
  function Stream(words: seq<int>): (s: seq<Bit>)
    ensures |s| == 32 * |words|
  {
    seq(32 * |words|, p requires 0 <= p < 32 * |words| => WordBits(words[p / 32])[p % 32])
  }

  // ---- correctness of the bit gathering ----

  lemma BitPosition(p: nat, j: nat)
    requires j < 64
    ensures p % 32 + j < 32 ==> (p + j) / 32 == p / 32 && (p + j) % 32 == p % 32 + j
    ensures 32 <= p % 32 + j < 64 ==> (p + j) / 32 == p / 32 + 1 && (p + j) % 32 == p % 32 + j - 32
  {
  }

  /** The slice of the stream an element occupies, split at a word boundary. */
  lemma StreamSlice(words: seq<int>, p: nat, b: nat)
    requires 1 <= b <= 32 && p + b <= 32 * |words|
    ensures
      var w, off := p / 32, p % 32;
      var lo := Min(32 - off, b);
      && w < |words| && (lo < b ==> w + 1 < |words|)
      && Stream(words)[p..p + lo] == WordBits(words[w])[off..off + lo]
      && (lo < b ==> Stream(words)[p + lo..p + b] == WordBits(words[w + 1])[..b - lo])
  {
    var w, off := p / 32, p % 32;
    var lo := Min(32 - off, b);
    var got, want := Stream(words)[p..p + lo], WordBits(words[w])[off..off + lo];
    forall j | 0 <= j < lo ensures got[j] == want[j] {
      BitPosition(p, j);
    }
    if lo < b {
      NextSlice(words, p, lo, b);
    }
  }

  lemma NextSlice(words: seq<int>, p: nat, lo: nat, b: nat)
    requires lo < b <= 32 && lo == 32 - p % 32 && p + b <= 32 * |words|
    ensures p / 32 + 1 < |words| && Stream(words)[p + lo..p + b] == WordBits(words[p / 32 + 1])[..b - lo]
  {
    var got, want := Stream(words)[p + lo..p + b], WordBits(words[p / 32 + 1])[..b - lo];
    forall j | 0 <= j < b - lo ensures got[j] == want[j] {
      BitPosition(p, lo + j);
    }
  }

  /** Two gathered parts are the value of the whole slice. */
  lemma PartsValue(bits: seq<Bit>, p: nat, lo: nat, b: nat)
    requires lo <= b && p + b <= |bits|
    ensures Value(bits[p..p + b]) == Value(bits[p..p + lo]) + Value(bits[p + lo..p + b]) * Pow2(lo)
  {
    var first, second := bits[p..p + lo], bits[p + lo..p + b];
    assert bits[p..p + b] == first + second;
    ValueConcat(first, second);
    assert Pow2(lo) * Value(second) == Value(second) * Pow2(lo);
  }

  /** What is gathered is the value of the stream's slice; sign extension is never seen. */
  lemma GatheredIsSlice(vg: seq<int>, start: nat, b: nat)
    requires 1 <= b <= 32 && start + b <= 32 * |vg|
    ensures Gather(vg, start, b) == Value(Stream(vg)[start..start + b])
  {
    var lo := Min(32 - start % 32, b);
    LowPart(vg, start, b, lo);
    if lo < b {
      HighPart(vg, start, b, lo);
      PartsValue(Stream(vg), start, lo, b);
    }
  }

  lemma LowPart(vg: seq<int>, start: nat, b: nat, lo: nat)
    requires 1 <= b <= 32 && start + b <= 32 * |vg| && lo == Min(32 - start % 32, b)
    ensures Mask(Shr(vg[start / 32], start % 32), lo) == Value(Stream(vg)[start..start + lo])
  {
    StreamSlice(vg, start, b);
    MaskedShift(vg[start / 32], start % 32, lo, 32);
  }

  lemma HighPart(vg: seq<int>, start: nat, b: nat, lo: nat)
    requires 1 <= b <= 32 && start + b <= 32 * |vg| && lo == 32 - start % 32 < b
    ensures start / 32 + 1 < |vg|
    ensures Mask(vg[start / 32 + 1], b - lo) == Value(Stream(vg)[start + lo..start + b])
  {
    NextSlice(vg, start, lo, b);
    MaskedShift(vg[start / 32 + 1], 0, b - lo, 32);
  }

  /** A group is an aligned piece of the row's stream. */
  lemma GroupIsAligned(words: seq<int>, base: nat, b: nat, p: nat)
    requires base + b <= |words| && p + b <= 32 * b
    ensures Stream(words)[32 * base + p..32 * base + p + b] == Stream(words[base..base + b])[p..p + b]
  {
    var got, want := Stream(words)[32 * base + p..32 * base + p + b], Stream(words[base..base + b])[p..p + b];
    forall j | 0 <= j < b ensures got[j] == want[j] {
      assert (32 * base + (p + j)) / 32 == base + (p + j) / 32 && (32 * base + (p + j)) % 32 == (p + j) % 32;
    }
  }

  lemma ElementOffset(i: nat, b: nat)
    ensures i * b == 32 * (i / 32 * b) + i % 32 * b
  {
    var g, e := i / 32, i % 32;
    assert i == 32 * g + e;
    assert (32 * g + e) * b == 32 * (g * b) + e * b;
  }

  lemma GroupValue(p: seq<int>, base: nat, start: nat, b: nat)
    requires 1 <= b <= 32 && base + b <= |p| && start + b <= 32 * b
    ensures Gather(p[base..base + b], start, b) == Value(Stream(p)[32 * base + start..32 * base + start + b])
  {
    GroupIsAligned(p, base, b, start);
    GatheredIsSlice(p[base..base + b], start, b);
  }

  lemma ElementValue(p: seq<int>, b: nat, i: nat)
    requires 1 <= b <= 8 && |p| % b == 0 && i < |p| / b * 32
    ensures i * b + b <= 32 * |p|
    ensures Element(p, b, i) == Value(Stream(p)[i * b..i * b + b]) - Pow2(b - 1)
  {
    GroupOf(|p|, b, i);
    ElementOffset(i, b);
    GroupValue(p, i / 32 * b, i % 32 * b, b);
  }

  /** Cross-word unpacking: element i is bits [i*b, (i+1)*b) of the little-endian stream minus
      2^(b-1), for every row of words and every width from 1 to 8, and fits in a byte. */
  lemma UnpackedElement(row: seq<int>, b: nat, cols: nat, i: nat)
    requires 1 <= b <= 8 && i < |UnpackRow(row, b, cols)|
    ensures i * b + b <= 32 * |Padded(row, b)|
    ensures UnpackRow(row, b, cols)[i] == Value(Stream(Padded(row, b))[i * b..i * b + b]) - Pow2(b - 1)
    ensures -128 <= UnpackRow(row, b, cols)[i] < 128
  {
    var p := Padded(row, b);
    ElementValue(p, b, i);
    ValueBound(Stream(p)[i * b..i * b + b]);
    ByteRange(b);
  }

  lemma ByteRange(b: nat)
    requires 1 <= b <= 8
    ensures Pow2(b) == 2 * Pow2(b - 1) && Pow2(b - 1) <= 128
  {
    Pow2Add(b - 1, 8 - b);
    assert Pow2(7) == 128;
    var p, q := Pow2(b - 1), Pow2(8 - b);
    assert p * (q - 1) >= 0;
    assert p * q == p + p * (q - 1);
  }

  // ---- the packer it inverts ----

  /** A signed element of b bits. */
  predicate InRange(x: int, b: nat)
    requires 1 <= b
  {
    0 <= x + Pow2(b - 1) < Pow2(b)
  }

  function RecentredBits(x: int, b: nat): (bits: seq<Bit>)
    requires 1 <= b && InRange(x, b)
    ensures |bits| == b && Value(bits) == x + Pow2(b - 1)
  {
    ValueOfBitsExact(x + Pow2(b - 1), b);
    BitsOf(x + Pow2(b - 1), b)
  }

  /** The stream of recentred elements, b bits each. */
  function ElementBits(xs: seq<int>, b: nat): (s: seq<Bit>)
    requires 1 <= b && forall i | 0 <= i < |xs| :: InRange(xs[i], b)
    ensures |s| == |xs| * b
  {
    seq(|xs| * b, p requires 0 <= p < |xs| * b =>
      ElementIndex(|xs|, b, p);
      RecentredBits(xs[p / b], b)[p % b])
  }

  lemma ElementIndex(n: nat, b: nat, p: nat)
    requires 1 <= b && p < n * b
    ensures p / b < n
  {
    var q, r := p / b, p % b;
    assert p == q * b + r;
    BlockFits(n - 1, q, b);
    assert (n - 1) * b + b == n * b;
  }

  /** Cut a stream, zero-padded to whole words, into signed words. */
  function PackStream(bits: seq<Bit>): (words: seq<int>)
    ensures |words| * 32 >= |bits| && forall i | 0 <= i < |words| :: IsInt32(words[i])
  {
    var full := bits + seq(-|bits| % 32, _ => 0);
    seq(|full| / 32, i requires 0 <= i < |full| / 32 =>
      SignedBits(full[32 * i..32 * i + 32]);
      Signed(Value(full[32 * i..32 * i + 32])))
  }

  /** A word's bits are those of its unsigned form. */
  lemma SignedBits(slice: seq<Bit>)
    requires |slice| == 32
    ensures Value(slice) < 0x1_0000_0000 && WordBits(Signed(Value(slice))) == slice
  {
    ValueBound(slice);
    WordSpace();
    var u := Value(slice);
    forall j | 0 <= j < 32 ensures WordBits(Signed(u))[j] == slice[j] {
      BitValue(slice, j);
      HighBitInvisible(u, j, 32);
    }
  }

  /** Subtracting 2^width leaves the bits below `width` alone. */
  lemma {:induction false} HighBitInvisible(u: int, j: nat, width: nat)
    requires j < width
    ensures BitAt(u - Pow2(width), j) == BitAt(u, j)
    decreases j
  {
    if j > 0 {
      HighBitInvisible(u / 2, j - 1, width - 1);
    }
  }

  lemma WordSpace()
    ensures Pow2(32) == 0x1_0000_0000
  {
    Pow2Add(8, 8);
    Pow2Add(16, 16);
    assert Pow2(8) == 256;
  }

  lemma StreamOfPacked(bits: seq<Bit>)
    ensures bits <= Stream(PackStream(bits))
  {
    var full, words := bits + seq(-|bits| % 32, _ => 0), PackStream(bits);
    forall p | 0 <= p < |full| ensures Stream(words)[p] == full[p] {
      var i, j := p / 32, p % 32;
      SignedBits(full[32 * i..32 * i + 32]);
    }
  }

  lemma PrefixSlice(bits: seq<Bit>, s: seq<Bit>, lo: nat, hi: nat)
    requires bits <= s && lo <= hi <= |bits|
    ensures Value(s[lo..hi]) == Value(bits[lo..hi])
  {
    assert s[lo..hi] == bits[lo..hi];
  }

  lemma ElementFromBits(bits: seq<Bit>, b: nat, p: seq<int>, i: nat, at: nat, x: int)
    requires 1 <= b <= 8 && |p| % b == 0 && i < |p| / b * 32 && bits <= Stream(p)
    requires at == i * b && at + b <= |bits| && Value(bits[at..at + b]) == x + Pow2(b - 1)
    ensures Element(p, b, i) == x
  {
    PrefixSlice(bits, Stream(p), at, at + b);
    ElementAt(p, b, i, at, x + Pow2(b - 1));
  }

  lemma ElementAt(p: seq<int>, b: nat, i: nat, at: nat, value: nat)
    requires 1 <= b <= 8 && |p| % b == 0 && i < |p| / b * 32 && at == i * b && at + b <= 32 * |p|
    requires value == Value(Stream(p)[at..at + b])
    ensures Element(p, b, i) == value - Pow2(b - 1)
  {
    ElementValue(p, b, i);
  }

  /** Unpacking inverts the natural packer. */
  lemma UnpackInvertsPack(xs: seq<int>, b: nat)
    requires 1 <= b <= 8 && forall i | 0 <= i < |xs| :: InRange(xs[i], b)
    ensures UnpackRow(PackStream(ElementBits(xs, b)), b, |xs|) == xs
  {
    var row := PackStream(ElementBits(xs, b));
    var p := Padded(row, b);
    StreamOfPacked(ElementBits(xs, b));
    StreamPrefix(row, p);
    EnoughElements(|xs|, b, |p|);
    forall i | 0 <= i < |xs| ensures Element(p, b, i) == xs[i] {
      ElementSlice(xs, b, i);
      ElementFromBits(ElementBits(xs, b), b, p, i, i * b, xs[i]);
    }
    assert UnpackRow(row, b, |xs|) == xs;
  }

  lemma StreamPrefix(row: seq<int>, p: seq<int>)
    requires row <= p
    ensures Stream(row) <= Stream(p)
  {
    forall j | 0 <= j < |Stream(row)| ensures Stream(p)[j] == Stream(row)[j] {
      assert p[j / 32] == row[j / 32];
    }
  }

  lemma EnoughElements(n: nat, b: nat, words: nat)
    requires 1 <= b && words % b == 0 && n * b <= 32 * words
    ensures n <= words / b * 32
  {
    var q := words / b;
    assert 32 * words == q * 32 * b;
    BlockFits(q * 32, n, b);
  }

  /** An element's own slice of the packed stream. */
  lemma ElementSlice(xs: seq<int>, b: nat, i: nat)
    requires 1 <= b <= 8 && i < |xs| && forall k | 0 <= k < |xs| :: InRange(xs[k], b)
    ensures i * b + b <= |xs| * b
    ensures Value(ElementBits(xs, b)[i * b..i * b + b]) == xs[i] + Pow2(b - 1)
  {
    BlockFits(i, |xs|, b);
    var field := RecentredBits(xs[i], b);
    forall j | 0 <= j < b ensures ElementBits(xs, b)[i * b + j] == field[j] {
      DivModIs(i * b + j, b, i, j);
    }
    assert ElementBits(xs, b)[i * b..i * b + b] == field;
  }
}
