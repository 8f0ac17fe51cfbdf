/** The record writer: packing one row into 368 bytes, the reader that undoes it, the fused
    kernel, and what a paged cache holds after any number of parallel writes. */
module Nvfp4Writer {

  import opened Reals
  import opened Nvfp4
  import opened ParallelStores
  import Bits

  type Byte = x: nat | x < 256

  /** The floating-point operations, left abstract. */
  datatype Ops = Ops(
    div: (real, real) -> real,
    mul: (real, real) -> real,
    sixth: real -> real,
    over448: real -> real,
    toE4M3: real -> Byte,
    fromE4M3: Byte -> real,
    toBytes: real -> seq<Byte>,
    fromBytes: seq<Byte> -> real)

  ghost predicate FourBytes(ops: Ops) {
    forall x :: |ops.toBytes(x)| == 4
  }

  // ---- packing ----

  /** The latent divided by the outer scale. */
  function Divided(ops: Ops, kv: seq<real>, latent: real): (x: seq<real>)
    ensures |x| == |kv|
  {
    seq(|kv|, d requires 0 <= d < |kv| => ops.div(kv[d], latent))
  }

  function Group(x: seq<real>, g: nat): (xs: seq<real>)
    requires |x| == 512 && g < 32
    ensures |xs| == 16
  {
    seq(16, j requires 0 <= j < 16 => x[16 * g + j])
  }

  function ScaleByte(ops: Ops, x: seq<real>, g: nat): Byte
    requires |x| == 512 && g < 32
  {
    ops.toE4M3(NonZero(ops.sixth(MaxAbs(Group(x, g)))))
  }

  function Code(ops: Ops, x: seq<real>, d: nat): (c: nat)
    requires |x| == 512 && d < 512
    ensures c < 16
  {
    var used := NonZero(ops.fromE4M3(ScaleByte(ops, x, d / 16)));
    QuotientCode(ops.div(x[d], used))
  }

  /** Two codes in a byte: low nibble the even entry, high nibble the odd one. */
  function Pair(lo: nat, hi: nat): (b: Byte)
    requires lo < 16 && hi < 16
    ensures b % 16 == lo && b / 16 == hi
  {
    lo + 16 * hi
  }

  /** Adding the nibbles is or-ing them. */
  lemma PairIsOr(lo: nat, hi: nat)
    requires lo < 16 && hi < 16
    ensures Pair(lo, hi) == Bits.Or(lo, 16 * hi)
  {
    assert Bits.Pow2(4) == 16;
    Bits.OrIsSum(lo, hi, 4);
  }

  function Nibbles(ops: Ops, x: seq<real>): (bytes: seq<Byte>)
    requires |x| == 512
    ensures |bytes| == 256
  {
    seq(256, b requires 0 <= b < 256 => Pair(Code(ops, x, 2 * b), Code(ops, x, 2 * b + 1)))
  }

  function Scales(ops: Ops, x: seq<real>): (bytes: seq<Byte>)
    requires |x| == 512
    ensures |bytes| == 32
  {
    seq(32, g requires 0 <= g < 32 => ScaleByte(ops, x, g))
  }

  function RopeScale(ops: Ops, pe: seq<real>): real {
    NonZero(ops.over448(MaxAbs(pe)))
  }

  function RopeByte(ops: Ops, pe: seq<real>, j: nat): Byte
    requires j < |pe|
  {
    ops.toE4M3(Clamp(ops.div(pe[j], RopeScale(ops, pe)), 448.0))
  }

  function RopeBytes(ops: Ops, pe: seq<real>): (bytes: seq<Byte>)
    ensures |bytes| == |pe|
  {
    seq(|pe|, j requires 0 <= j < |pe| => RopeByte(ops, pe, j))
  }

  function Zeros(n: nat): (bytes: seq<Byte>)
    ensures |bytes| == n
  {
    seq(n, i => 0)
  }

  function PackRecord(ops: Ops, kv: seq<real>, pe: seq<real>, latent: real): (rec: seq<Byte>)
    requires FourBytes(ops) && |kv| == 512 && |pe| == 64
    ensures |rec| == 368
  {
    var x := Divided(ops, kv, latent);
    Nibbles(ops, x) + Scales(ops, x) + ops.toBytes(RopeScale(ops, pe)) + Zeros(12) + RopeBytes(ops, pe)
  }

  /** Byte j, by the field it belongs to. */
  function FieldByte(ops: Ops, x: seq<real>, pe: seq<real>, j: nat): Byte
    requires FourBytes(ops) && |x| == 512 && |pe| == 64 && j < 368
  {
    if j < 256 then Nibbles(ops, x)[j]
    else if j < 288 then Scales(ops, x)[j - 256]
    else if j < 292 then ops.toBytes(RopeScale(ops, pe))[j - 288]
    else if j < 304 then 0
    else RopeByte(ops, pe, j - 304)
  }

  /** The layout of a record. */
  lemma RecordLayout(ops: Ops, kv: seq<real>, pe: seq<real>, latent: real, j: nat)
    requires FourBytes(ops) && |kv| == 512 && |pe| == 64 && j < 368
    ensures PackRecord(ops, kv, pe, latent)[j] == FieldByte(ops, Divided(ops, kv, latent), pe, j)
  {
  }

  // ---- reading ----

  /** The code of entry d. */
  function CodeAt(rec: seq<Byte>, d: nat): (c: nat)
    requires |rec| == 368 && d < 512
    ensures c < 16
  {
    if d % 2 == 0 then rec[d / 2] % 16 else rec[d / 2] / 16
  }

  function UnpackNope(ops: Ops, rec: seq<Byte>, latent: real): (nope: seq<real>)
    requires |rec| == 368
    ensures |nope| == 512
  {
    seq(512, d requires 0 <= d < 512 =>
      ops.mul(ops.mul(E2M1Decode(CodeAt(rec, d)), ops.fromE4M3(rec[256 + d / 16])), latent))
  }

  function UnpackRope(ops: Ops, rec: seq<Byte>): (rope: seq<real>)
    requires |rec| == 368
    ensures |rope| == 64
  {
    seq(64, i requires 0 <= i < 64 => ops.mul(ops.fromE4M3(rec[304 + i]), ops.fromBytes(rec[288..292])))
  }

  lemma NibbleAt(ops: Ops, x: seq<real>, d: nat, b: nat)
    requires |x| == 512 && d < 512 && b == d / 2
    ensures Code(ops, x, d) == if d % 2 == 0 then Nibbles(ops, x)[b] % 16 else Nibbles(ops, x)[b] / 16
  {
    assert Nibbles(ops, x)[b] == Pair(Code(ops, x, 2 * b), Code(ops, x, 2 * b + 1));
    assert d == if d % 2 == 0 then 2 * b else 2 * b + 1;
  }

  /** The reader gets back every code and scale byte the writer computed, and multiplies
      exactly them. */
  lemma ReaderRecoversCodes(ops: Ops, kv: seq<real>, pe: seq<real>, latent: real, d: nat)
    requires FourBytes(ops) && |kv| == 512 && |pe| == 64 && d < 512
    ensures
      var rec := PackRecord(ops, kv, pe, latent);
      var x := Divided(ops, kv, latent);
      && CodeAt(rec, d) == Code(ops, x, d)
      && rec[256 + d / 16] == ScaleByte(ops, x, d / 16)
  {
    RecordLayout(ops, kv, pe, latent, d / 2);
    RecordLayout(ops, kv, pe, latent, 256 + d / 16);
    NibbleAt(ops, Divided(ops, kv, latent), d, d / 2);
  }

  lemma ReaderRecoversRope(ops: Ops, kv: seq<real>, pe: seq<real>, latent: real, i: nat)
    requires FourBytes(ops) && |kv| == 512 && |pe| == 64 && i < 64
    ensures
      var rec := PackRecord(ops, kv, pe, latent);
      && rec[304 + i] == RopeByte(ops, pe, i)
      && rec[288..292] == ops.toBytes(RopeScale(ops, pe))
  {
    RecordLayout(ops, kv, pe, latent, 304 + i);
    var got, want := PackRecord(ops, kv, pe, latent)[288..292], ops.toBytes(RopeScale(ops, pe));
    forall j | 0 <= j < 4 ensures got[j] == want[j] {
      RecordLayout(ops, kv, pe, latent, 288 + j);
    }
  }

  // ---- the fused kernel ----

  /** The two halves of a group: its even and its odd entries. */
  function Half(ops: Ops, kv: seq<real>, latent: real, g: nat, odd: nat): (xs: seq<real>)
    requires |kv| == 512 && g < 32 && odd < 2
    ensures |xs| == 8
  {
    seq(8, i requires 0 <= i < 8 => ops.div(kv[16 * g + 2 * i + odd], latent))
  }

  lemma ShuffledMax(whole: seq<real>, even: seq<real>, odd: seq<real>)
    requires forall x :: x in whole <==> x in even || x in odd
    ensures Max(MaxAbs(even), MaxAbs(odd)) == MaxAbs(whole)
  {
    forall x | x in whole ensures Abs(x) <= Max(MaxAbs(even), MaxAbs(odd)) {
      if x in even {
        MaxAbsBounds(even, x);
      } else {
        MaxAbsBounds(odd, x);
      }
    }
    forall x | x in even || x in odd ensures Abs(x) <= MaxAbs(whole) {
      MaxAbsBounds(whole, x);
    }
    MaxAbsLeast(whole, Max(MaxAbs(even), MaxAbs(odd)));
    MaxAbsLeast(even, MaxAbs(whole));
    MaxAbsLeast(odd, MaxAbs(whole));
  }

  lemma HalfAt(ops: Ops, kv: seq<real>, latent: real, g: nat, j: nat)
    requires |kv| == 512 && g < 32 && j < 16
    ensures Group(Divided(ops, kv, latent), g)[j] == Half(ops, kv, latent, g, j % 2)[j / 2]
  {
    assert j == 2 * (j / 2) + j % 2;
  }

  lemma HalvesCover(ops: Ops, kv: seq<real>, latent: real, g: nat, x: real)
    requires |kv| == 512 && g < 32
    ensures x in Group(Divided(ops, kv, latent), g) <==>
            x in Half(ops, kv, latent, g, 0) || x in Half(ops, kv, latent, g, 1)
  {
    var whole, even, odd := Group(Divided(ops, kv, latent), g), Half(ops, kv, latent, g, 0),
        Half(ops, kv, latent, g, 1);
    if x in whole {
      var j :| 0 <= j < 16 && whole[j] == x;
      HalfAt(ops, kv, latent, g, j);
    }
    if i :| 0 <= i < 8 && even[i] == x {
      assert whole[2 * i] == x;
    }
    if i :| 0 <= i < 8 && odd[i] == x {
      assert whole[2 * i + 1] == x;
    }
  }

  /** The maximum over the halves is the maximum over the group. */
  lemma HalvesMax(ops: Ops, kv: seq<real>, latent: real, g: nat, whole: seq<real>, even: seq<real>, odd: seq<real>)
    requires |kv| == 512 && g < 32 && whole == Group(Divided(ops, kv, latent), g)
    requires even == Half(ops, kv, latent, g, 0) && odd == Half(ops, kv, latent, g, 1)
    ensures Max(MaxAbs(even), MaxAbs(odd)) == MaxAbs(whole)
  {
    forall x ensures x in whole <==> x in even || x in odd {
      HalvesCover(ops, kv, latent, g, x);
    }
    ShuffledMax(whole, even, odd);
  }

  /** Group scales from the two halves. */
  function KernelScales(ops: Ops, kv: seq<real>, latent: real): (bytes: seq<Byte>)
    requires |kv| == 512
    ensures |bytes| == 32 && bytes == Scales(ops, Divided(ops, kv, latent))
  {
    var bytes := seq<Byte>(32, g requires 0 <= g < 32 =>
      ops.toE4M3(NonZero(ops.sixth(Max(MaxAbs(Half(ops, kv, latent, g, 0)), MaxAbs(Half(ops, kv, latent, g, 1)))))));
    var x := Divided(ops, kv, latent);
    assert forall g | 0 <= g < 32 :: bytes[g] == Scales(ops, x)[g] by {
      forall g | 0 <= g < 32 ensures bytes[g] == Scales(ops, x)[g] {
        HalvesMax(ops, kv, latent, g, Group(x, g), Half(ops, kv, latent, g, 0), Half(ops, kv, latent, g, 1));
      }
    }
    bytes
  }

  /** Byte pairs from the two halves. */
  function KernelNibbles(ops: Ops, kv: seq<real>, latent: real, scales: seq<Byte>): (bytes: seq<Byte>)
    requires |kv| == 512 && |scales| == 32
    ensures |bytes| == 256
  {
    seq<Byte>(256, b requires 0 <= b < 256 => KernelByte(ops, kv, latent, b, NonZero(ops.fromE4M3(scales[b / 8]))))
  }

  function KernelByte(ops: Ops, kv: seq<real>, latent: real, b: nat, used: real): Byte
    requires |kv| == 512 && b < 256
  {
    KernelPair(ops.div(Half(ops, kv, latent, b / 8, 0)[b % 8], used),
        ops.div(Half(ops, kv, latent, b / 8, 1)[b % 8], used))
  }

  lemma KernelNibblesMatch(ops: Ops, kv: seq<real>, latent: real, scales: seq<Byte>)
    requires |kv| == 512 && scales == Scales(ops, Divided(ops, kv, latent))
    ensures KernelNibbles(ops, kv, latent, scales) == Nibbles(ops, Divided(ops, kv, latent))
  {
    var got, want := KernelNibbles(ops, kv, latent, scales), Nibbles(ops, Divided(ops, kv, latent));
    forall b | 0 <= b < 256 ensures got[b] == want[b] {
      KernelByteMatches(ops, kv, latent, b, NonZero(ops.fromE4M3(scales[b / 8])));
    }
  }

  lemma KernelByteMatches(ops: Ops, kv: seq<real>, latent: real, b: nat, used: real)
    requires |kv| == 512 && b < 256
    requires used == NonZero(ops.fromE4M3(ScaleByte(ops, Divided(ops, kv, latent), b / 8)))
    ensures KernelByte(ops, kv, latent, b, used) == Nibbles(ops, Divided(ops, kv, latent))[b]
  {
    PairCode(ops, kv, latent, b, 0, used);
    PairCode(ops, kv, latent, b, 1, used);
    PairIsNibbles(ops, Divided(ops, kv, latent), b,
      ops.div(Half(ops, kv, latent, b / 8, 0)[b % 8], used), ops.div(Half(ops, kv, latent, b / 8, 1)[b % 8], used));
  }

  /** The bytes of one program instance, in the order of its stores: nibbles, scales, RoPE
      payload, RoPE scale, padding. A negative slot goes to slot 0. */
  method KernelInstance(ops: Ops, kv: seq<real>, pe: seq<real>, slotOrPad: int,
      latent: real) returns (stores: seq<Store<nat, Byte>>)
    requires FourBytes(ops) && |kv| == 512 && |pe| == 64
    ensures WritesRecord(stores, if slotOrPad < 0 then 0 else slotOrPad, PackRecord(ops, kv, pe, latent))
  {
    var slot: nat := if slotOrPad < 0 then 0 else slotOrPad;
    var rec := slot * 368;
    var scales := KernelScales(ops, kv, latent);
    var packed := KernelNibbles(ops, kv, latent, scales);
    var rs := NonZero(ops.over448(MaxAbs(pe)));
    var rope := seq<Byte>(64, j requires 0 <= j < 64 => ops.toE4M3(Clamp(ops.div(pe[j], rs), 448.0)));
    stores := StoresOf(rec, packed) + StoresOf(rec + 256, scales) + StoresOf(rec + 304, rope) +
      StoresOf(rec + 288, ops.toBytes(rs)) + StoresOf(rec + 292, Zeros(12));
    assert rope == RopeBytes(ops, pe);
    KernelNibblesMatch(ops, kv, latent, scales);
    RecordAssembled(ops, kv, pe, latent, packed, scales, ops.toBytes(rs), rope);
    FieldsMakeRecord(slot, packed, scales, ops.toBytes(rs), Zeros(12), rope);
  }

  lemma RecordAssembled(ops: Ops, kv: seq<real>, pe: seq<real>, latent: real, nibbles: seq<Byte>, scales: seq<Byte>,
      scale: seq<Byte>, rope: seq<Byte>)
    requires FourBytes(ops) && |kv| == 512 && |pe| == 64
    requires nibbles == Nibbles(ops, Divided(ops, kv, latent)) && scales == Scales(ops, Divided(ops, kv, latent))
    requires scale == ops.toBytes(RopeScale(ops, pe)) && rope == RopeBytes(ops, pe)
    ensures nibbles + scales + scale + Zeros(12) + rope == PackRecord(ops, kv, pe, latent)
  {
  }

  function KernelPair(even: real, odd: real): (b: Byte)
    ensures b == Pair(QuotientCode(even), QuotientCode(odd))
  {
    var ce, co := KernelCode(Clamp(even, 6.0)), KernelCode(Clamp(odd, 6.0));
    KernelCodeIsReference(Clamp(even, 6.0));
    KernelCodeIsReference(Clamp(odd, 6.0));
    Pair(ce, co)
  }

  lemma PairCode(ops: Ops, kv: seq<real>, latent: real, b: nat, odd: nat, used: real)
    requires |kv| == 512 && b < 256 && odd < 2
    requires used == NonZero(ops.fromE4M3(ScaleByte(ops, Divided(ops, kv, latent), b / 8)))
    ensures Code(ops, Divided(ops, kv, latent), 2 * b + odd) ==
            QuotientCode(ops.div(Half(ops, kv, latent, b / 8, odd)[b % 8], used))
  {
    assert (2 * b + odd) / 16 == b / 8;
    assert 16 * (b / 8) + 2 * (b % 8) + odd == 2 * b + odd;
  }

  lemma PairIsNibbles(ops: Ops, x: seq<real>, b: nat, even: real, odd: real)
    requires |x| == 512 && b < 256
    requires Code(ops, x, 2 * b) == QuotientCode(even) && Code(ops, x, 2 * b + 1) == QuotientCode(odd)
    ensures KernelPair(even, odd) == Nibbles(ops, x)[b]
  {
  }

  function StoresOf(base: nat, bytes: seq<Byte>): (stores: seq<Store<nat, Byte>>)
    ensures |stores| == |bytes|
  {
    seq(|bytes|, i requires 0 <= i < |bytes| => Store(base + i, bytes[i]))
  }

  /** The stores write exactly the record's bytes, all of them, and nothing else. */
  ghost predicate WritesRecord(stores: seq<Store<nat, Byte>>, slot: nat, rec: seq<Byte>) {
    forall s :: s in stores <==> s in StoresOf(slot * 368, rec)
  }

  lemma StoresOfHas(base: nat, bytes: seq<Byte>, s: Store<nat, Byte>)
    ensures s in StoresOf(base, bytes) <==> base <= s.at < base + |bytes| && s.value == bytes[s.at - base]
  {
    if base <= s.at < base + |bytes| && s.value == bytes[s.at - base] {
      assert StoresOf(base, bytes)[s.at - base] == s;
    }
  }

  /** The five stores of an instance write the five fields of its record. */
  lemma FieldsMakeRecord(slot: nat, nibbles: seq<Byte>, scales: seq<Byte>, scale: seq<Byte>, pad: seq<Byte>,
      rope: seq<Byte>)
    requires |nibbles| == 256 && |scales| == 32 && |scale| == 4 && |pad| == 12 && |rope| == 64
    ensures
      var base := slot * 368;
      WritesRecord(
        StoresOf(base, nibbles) + StoresOf(base + 256, scales) + StoresOf(base + 304, rope) +
        StoresOf(base + 288, scale) + StoresOf(base + 292, pad),
        slot, nibbles + scales + scale + pad + rope)
  {
    var base := slot * 368;
    StoresJoin(base, nibbles, scales);
    StoresJoin(base, nibbles + scales, scale);
    StoresJoin(base, nibbles + scales + scale, pad);
    StoresJoin(base, nibbles + scales + scale + pad, rope);
  }

  lemma StoresJoin(base: nat, a: seq<Byte>, b: seq<Byte>)
    ensures StoresOf(base, a + b) == StoresOf(base, a) + StoresOf(base + |a|, b)
  {
  }

  // ---- the round trip in exact arithmetic ----

  /** The operations computed exactly, with E4M3 rounding to nearest and a sign bit. */
  ghost predicate Exact(ops: Ops, round: real -> nat) {
    FourBytes(ops) && ExactArithmetic(ops) && ExactCoding(ops, round)
  }

  ghost predicate ExactArithmetic(ops: Ops) {
    && (forall x, y | y != 0.0 :: ops.div(x, y) == x / y)
    && (forall x, y :: ops.mul(x, y) == x * y)
    && (forall x :: ops.sixth(x) == x / 6.0)
    && (forall x :: ops.over448(x) == x / 448.0)
  }

  ghost predicate ExactCoding(ops: Ops, round: real -> nat) {
    && RoundsToNearest(round)
    && (forall x | 0.0 <= x <= 448.0 :: ops.toE4M3(x) == round(x))
    && (forall x | -448.0 <= x < 0.0 :: ops.toE4M3(x) == 128 + round(-x))
    && (forall c: Byte | c <= 126 :: ops.fromE4M3(c) == E4M3(c))
    && (forall c: Byte | 128 <= c <= 254 :: ops.fromE4M3(c) == -E4M3(c - 128))
  }

  function Quotient(x: real, y: real): real { if y == 0.0 then 0.0 else x / y }

  function Product(x: real, y: real): real { x * y }

  /** Sign in the top bit. */
  function Encoded(x: real): Byte {
    if x < 0.0 then 128 + ToNearest(-x) else ToNearest(x)
  }

  function Decoded(c: Byte): real {
    if c <= 126 then E4M3(c) else if 128 <= c <= 254 then -E4M3(c - 128) else 0.0
  }

  /** Exact operations, with the first of the nearest codes on a tie and one scale that survives
      being stored as bytes. */
  function ExactOps(scale: real): Ops {
    Ops(Quotient, Product, x => x / 6.0, x => x / 448.0, Encoded, Decoded, x => [0, 0, 0, 0], b => scale)
  }

  /** So the round-trip lemmas below speak of something, whatever the row's RoPE scale. */
  lemma ExactOpsExist(scale: real)
    ensures Exact(ExactOps(scale), ToNearest)
    ensures ExactOps(scale).fromBytes(ExactOps(scale).toBytes(scale)) == scale
  {
    ExactOpsArithmetic(ExactOps(scale), scale);
    ExactOpsCoding(ExactOps(scale), scale);
  }

  lemma ExactOpsArithmetic(ops: Ops, scale: real)
    requires ops == ExactOps(scale)
    ensures ExactArithmetic(ops)
  {
    forall x, y | y != 0.0 ensures ops.div(x, y) == x / y {
      assert ops.div(x, y) == Quotient(x, y);
    }
  }

  lemma ExactOpsCoding(ops: Ops, scale: real)
    requires ops == ExactOps(scale)
    ensures ExactCoding(ops, ToNearest)
  {
    RoundingExists();
    forall x ensures ops.toE4M3(x) == Encoded(x) {
    }
    forall c: Byte ensures ops.fromE4M3(c) == Decoded(c) {
    }
  }

  lemma ExactCode(ops: Ops, round: real -> nat, x: seq<real>, d: nat, code: nat, c: nat)
    requires Exact(ops, round) && |x| == 512 && d < 512
    requires MaxAbs(Group(x, d / 16)) / 6.0 <= 448.0
    requires code == ScaleByte(ops, x, d / 16) && c == Code(ops, x, d)
    ensures code <= 126 && code == round(GroupScale(Group(x, d / 16)))
    ensures c == EntryCode(x[d], code)
  {
    var g := Group(x, d / 16);
    assert ops.sixth(MaxAbs(g)) == MaxAbs(g) / 6.0;
    assert 0.0 <= GroupScale(g) <= 448.0;
    assert ops.div(x[d], UsedScale(code)) == x[d] / UsedScale(code);
  }

  /** Writing and reading back: for any group whose scale is in the normal range, every NoPE
      entry comes back within one stored scale s, times the outer scale. */
  lemma NopeRoundTrip(ops: Ops, round: real -> nat, kv: seq<real>, pe: seq<real>, latent: real, d: nat, amax: real,
      s: real, got: real)
    requires Exact(ops, round) && |kv| == 512 && |pe| == 64 && d < 512 && latent > 0.0
    requires amax == MaxAbs(Group(Divided(ops, kv, latent), d / 16)) && 1.0 / 64.0 <= amax / 6.0 <= 448.0
    requires s == ops.fromE4M3(PackRecord(ops, kv, pe, latent)[256 + d / 16])
    requires got == UnpackNope(ops, PackRecord(ops, kv, pe, latent), latent)[d]
    ensures Abs(got - kv[d]) <= s * latent
    ensures s <= 17.0 * amax / 96.0
  {
    var x := Divided(ops, kv, latent);
    var c, code := Code(ops, x, d), ScaleByte(ops, x, d / 16);
    var g, v := Group(x, d / 16), E2M1Decode(c);
    NopeParts(ops, round, kv, pe, latent, d, s, got, g, code, c, v);
    GroupError(round, g, d % 16, code, s, c, v);
    NopeError(ops, round, v, s, s, g[d % 16], kv[d], latent, got);
  }

  /** What was stored for an entry and what the reader makes of it. */
  lemma NopeParts(ops: Ops, round: real -> nat, kv: seq<real>, pe: seq<real>, latent: real, d: nat, s: real, got: real,
                  g: seq<real>, code: Byte, c: nat, v: real)
    requires Exact(ops, round) && |kv| == 512 && |pe| == 64 && d < 512 && latent > 0.0
    requires g == Group(Divided(ops, kv, latent), d / 16) && MaxAbs(g) / 6.0 <= 448.0
    requires code == ScaleByte(ops, Divided(ops, kv, latent), d / 16)
    requires c == Code(ops, Divided(ops, kv, latent), d) && v == E2M1Decode(c)
    requires s == ops.fromE4M3(PackRecord(ops, kv, pe, latent)[256 + d / 16])
    requires got == UnpackNope(ops, PackRecord(ops, kv, pe, latent), latent)[d]
    ensures code <= 126 && code == round(GroupScale(g)) && s == E4M3(code)
    ensures c == EntryCode(g[d % 16], code) && g[d % 16] == kv[d] / latent
    ensures got == ops.mul(ops.mul(v, s), latent)
  {
    var x := Divided(ops, kv, latent);
    ExactCode(ops, round, x, d, code, c);
    GroupEntryIndex(x, d);
    NopeRead(ops, kv, pe, latent, d, code, c);
    ExactDiv(ops, round, kv[d], latent, x[d]);
  }

  lemma NopeRead(ops: Ops, kv: seq<real>, pe: seq<real>, latent: real, d: nat, code: Byte, c: nat)
    requires FourBytes(ops) && |kv| == 512 && |pe| == 64 && d < 512
    requires c == Code(ops, Divided(ops, kv, latent), d) && code == ScaleByte(ops, Divided(ops, kv, latent), d / 16)
    ensures PackRecord(ops, kv, pe, latent)[256 + d / 16] == code
    ensures UnpackNope(ops, PackRecord(ops, kv, pe, latent), latent)[d] ==
            ops.mul(ops.mul(E2M1Decode(c), ops.fromE4M3(code)), latent)
  {
    ReaderRecoversCodes(ops, kv, pe, latent, d);
  }

  lemma NopeError(ops: Ops, round: real -> nat, v: real, s: real, bound: real, entry: real, original: real,
                  latent: real, got: real)
    requires Exact(ops, round) && Abs(v * s - entry) <= bound
    requires latent > 0.0 && entry == original / latent && got == ops.mul(ops.mul(v, s), latent)
    ensures Abs(got - original) <= bound * latent
  {
    ExactMul(ops, round, v, s, ops.mul(v, s));
    ExactMul(ops, round, ops.mul(v, s), latent, got);
    LatentError(v * s, original, latent, bound);
  }

  /** And for a group whose scale is below the normal range, down to zero: within one stored
      scale s, or 6/1024 where that is larger, times the outer scale. */
  lemma SmallNopeRoundTrip(ops: Ops, round: real -> nat, kv: seq<real>, pe: seq<real>, latent: real, d: nat,
                           amax: real, s: real, bound: real, got: real)
    requires Exact(ops, round) && |kv| == 512 && |pe| == 64 && d < 512 && latent > 0.0
    requires amax == MaxAbs(Group(Divided(ops, kv, latent), d / 16)) && amax / 6.0 <= 1.0 / 64.0
    requires bound == Max(s, 6.0 / 1024.0)
    requires s == ops.fromE4M3(PackRecord(ops, kv, pe, latent)[256 + d / 16])
    requires got == UnpackNope(ops, PackRecord(ops, kv, pe, latent), latent)[d]
    ensures Abs(got - kv[d]) <= bound * latent
    ensures amax / 6.0 - 1.0 / 1024.0 <= s <= amax / 6.0 + 1.0 / 1024.0
  {
    var x := Divided(ops, kv, latent);
    var c, code := Code(ops, x, d), ScaleByte(ops, x, d / 16);
    var g, v := Group(x, d / 16), E2M1Decode(c);
    NopeParts(ops, round, kv, pe, latent, d, s, got, g, code, c, v);
    SmallGroupError(round, g, d % 16, code, s, c, v);
    NopeError(ops, round, v, s, bound, g[d % 16], kv[d], latent, got);
  }

  lemma ExactMul(ops: Ops, round: real -> nat, a: real, b: real, p: real)
    requires Exact(ops, round) && p == ops.mul(a, b)
    ensures p == a * b
  {
  }

  lemma ExactDiv(ops: Ops, round: real -> nat, a: real, b: real, q: real)
    requires Exact(ops, round) && b > 0.0 && q == ops.div(a, b)
    ensures q * b == a && q == a / b
  {
    DivideBack(a, b);
  }

  lemma GroupEntryIndex(x: seq<real>, d: nat)
    requires |x| == 512 && d < 512
    ensures Group(x, d / 16)[d % 16] == x[d]
  {
  }

  /** The same for RoPE values: within a sixteenth of the value, or 1/1024 of the row's scale
      where that is larger. The scale itself must survive being stored as four bytes. */
  lemma RopeRoundTrip(ops: Ops, round: real -> nat, kv: seq<real>, pe: seq<real>, latent: real, i: nat, rs: real,
      got: real)
    requires Exact(ops, round) && |kv| == 512 && |pe| == 64 && i < 64
    requires rs == NonZero(MaxAbs(pe) / 448.0) && ops.fromBytes(ops.toBytes(rs)) == rs
    requires got == UnpackRope(ops, PackRecord(ops, kv, pe, latent))[i]
    ensures Abs(got - pe[i]) <= Max(Abs(pe[i]) / 16.0, rs / 1024.0)
  {
    var y := ops.div(pe[i], rs);
    RopeScaleIs(ops, round, pe, rs);
    ReaderRecoversRope(ops, kv, pe, latent, i);
    MaxAbsBounds(pe, pe[i]);
    ExactDiv(ops, round, pe[i], rs, y);
    RopeError(ops, round, pe[i], MaxAbs(pe), rs, y, ops.fromE4M3(ops.toE4M3(Clamp(y, 448.0))), got);
  }

  lemma RopeScaleIs(ops: Ops, round: real -> nat, pe: seq<real>, rs: real)
    requires Exact(ops, round) && rs == NonZero(MaxAbs(pe) / 448.0)
    ensures RopeScale(ops, pe) == rs
  {
  }

  lemma RopeError(ops: Ops, round: real -> nat, r: real, m: real, rs: real, y: real, v: real, got: real)
    requires Exact(ops, round) && Abs(r) <= m && rs == NonZero(m / 448.0) && y * rs == r
    requires v == ops.fromE4M3(ops.toE4M3(Clamp(y, 448.0))) && got == ops.mul(v, rs)
    ensures Abs(got - r) <= Max(Abs(r) / 16.0, rs / 1024.0)
  {
    RopeQuotient(r, m, rs, y);
    SignedError(ops, round, y);
    ExactMul(ops, round, v, rs, got);
    ErrorScaled(v, y, rs, r);
  }

  lemma SignedError(ops: Ops, round: real -> nat, y: real)
    requires Exact(ops, round) && Abs(y) <= 448.0
    ensures Abs(ops.fromE4M3(ops.toE4M3(y)) - y) <= Max(Abs(y) / 16.0, 1.0 / 1024.0)
  {
    E4M3Error(round, Abs(y));
  }

  /** A group whose scale rounds away is read back as zeros, whatever its codes; an all-zero
      group is stored as zero codes too. */
  lemma VanishingRoundTrip(ops: Ops, round: real -> nat, kv: seq<real>, pe: seq<real>, latent: real, d: nat)
    requires Exact(ops, round) && |kv| == 512 && |pe| == 64 && d < 512
    requires MaxAbs(Group(Divided(ops, kv, latent), d / 16)) / 6.0 < 1.0 / 1024.0
    ensures
      var rec := PackRecord(ops, kv, pe, latent);
      && rec[256 + d / 16] == 0 && UnpackNope(ops, rec, latent)[d] == 0.0
      && (MaxAbs(Group(Divided(ops, kv, latent), d / 16)) == 0.0 ==> CodeAt(rec, d) == 0)
  {
    var x := Divided(ops, kv, latent);
    var g, c := Group(x, d / 16), Code(ops, x, d);
    ReaderRecoversCodes(ops, kv, pe, latent, d);
    NopeRead(ops, kv, pe, latent, d, ScaleByte(ops, x, d / 16), c);
    VanishedScale(ops, round, MaxAbs(g), ScaleByte(ops, x, d / 16));
    VanishedProduct(ops, round, E2M1Decode(c), latent);
    GroupEntryIndex(x, d);
    if MaxAbs(g) == 0.0 {
      MaxAbsBounds(g, g[d % 16]);
      ZeroCode(ops, round, x[d]);
    }
  }

  lemma VanishedScale(ops: Ops, round: real -> nat, m: real, code: Byte)
    requires Exact(ops, round) && 0.0 <= m && m / 6.0 < 1.0 / 1024.0 && code == ops.toE4M3(NonZero(ops.sixth(m)))
    ensures code == 0 && ops.fromE4M3(0) == 0.0
  {
    assert ops.sixth(m) == m / 6.0;
    E4M3Vanishes(round, NonZero(m / 6.0));
    CodeEnds();
  }

  lemma VanishedProduct(ops: Ops, round: real -> nat, v: real, latent: real)
    requires Exact(ops, round)
    ensures ops.mul(ops.mul(v, 0.0), latent) == 0.0
  {
    ExactMul(ops, round, v, 0.0, ops.mul(v, 0.0));
    ExactMul(ops, round, 0.0, latent, ops.mul(0.0, latent));
  }

  lemma ZeroCode(ops: Ops, round: real -> nat, x: real)
    requires Exact(ops, round) && x == 0.0
    ensures QuotientCode(ops.div(x, 0.00000001)) == 0
  {
    ExactDiv(ops, round, x, 0.00000001, ops.div(x, 0.00000001));
    BucketSteps(0.0);
  }

  // ---- what is read back is the best there is ----

  /** Through the record: no code in place of the stored one would read back closer to the
      original, for any group whose scale did not vanish. */
  lemma NopeNearest(ops: Ops, round: real -> nat, kv: seq<real>, pe: seq<real>, latent: real, d: nat, s: real,
                    got: real, other: nat, instead: real)
    requires Exact(ops, round) && |kv| == 512 && |pe| == 64 && d < 512 && latent > 0.0 && other < 16
    requires MaxAbs(Group(Divided(ops, kv, latent), d / 16)) / 6.0 <= 448.0
    requires s == ops.fromE4M3(PackRecord(ops, kv, pe, latent)[256 + d / 16]) && s > 0.0
    requires got == UnpackNope(ops, PackRecord(ops, kv, pe, latent), latent)[d]
    requires instead == ops.mul(ops.mul(E2M1Decode(other), s), latent)
    ensures Abs(got - kv[d]) <= Abs(instead - kv[d])
  {
    var x := Divided(ops, kv, latent);
    var c, code := Code(ops, x, d), ScaleByte(ops, x, d / 16);
    var g, v, u := Group(x, d / 16), E2M1Decode(c), E2M1Decode(other);
    NopeParts(ops, round, kv, pe, latent, d, s, got, g, code, c, v);
    var y := g[d % 16] / s;
    QuotientOf(g[d % 16], code, s, c, y);
    EntryNearest(g[d % 16], y, s, c, v, other, u);
    ReadBackNearest(ops, round, v, u, s, latent, g[d % 16], kv[d], got, instead);
  }

  lemma ReadBackNearest(ops: Ops, round: real -> nat, v: real, u: real, s: real, latent: real, entry: real,
                        original: real, got: real, instead: real)
    requires Exact(ops, round) && latent > 0.0 && entry == original / latent
    requires Abs(v * s - entry) <= Abs(u * s - entry)
    requires got == ops.mul(ops.mul(v, s), latent) && instead == ops.mul(ops.mul(u, s), latent)
    ensures Abs(got - original) <= Abs(instead - original)
  {
    ExactMul(ops, round, v, s, ops.mul(v, s));
    ExactMul(ops, round, ops.mul(v, s), latent, got);
    ExactMul(ops, round, u, s, ops.mul(u, s));
    ExactMul(ops, round, ops.mul(u, s), latent, instead);
    DivideBack(original, latent);
    LatentNearest(v * s, u * s, entry, latent, original, got, instead);
  }

  lemma LatentNearest(a: real, b: real, entry: real, latent: real, original: real, got: real, instead: real)
    requires latent > 0.0 && entry * latent == original && Abs(a - entry) <= Abs(b - entry)
    requires got == a * latent && instead == b * latent
    ensures Abs(got - original) <= Abs(instead - original)
  {
    NearestScaled(a, b, entry, latent, original);
  }

  /** The stored scale byte too is a nearest one to the group's scale. */
  lemma ScaleByteNearest(ops: Ops, round: real -> nat, kv: seq<real>, pe: seq<real>, latent: real, g: nat, m: real,
                         other: nat)
    requires Exact(ops, round) && |kv| == 512 && |pe| == 64 && g < 32 && other <= 126
    requires m == MaxAbs(Group(Divided(ops, kv, latent), g)) && 0.0 < m / 6.0 <= 448.0
    ensures
      var s := ops.fromE4M3(PackRecord(ops, kv, pe, latent)[256 + g]);
      Abs(s - m / 6.0) <= Abs(E4M3(other) - m / 6.0)
  {
    RecordLayout(ops, kv, pe, latent, 256 + g);
    assert ops.sixth(m) == m / 6.0;
    ScaleNearest(round, m, other);
  }

  /** And every RoPE byte: no other E4M3 code of either sign would read back closer. */
  lemma RopeNearest(ops: Ops, round: real -> nat, kv: seq<real>, pe: seq<real>, latent: real, i: nat, rs: real,
                    got: real, other: nat, u: real)
    requires Exact(ops, round) && |kv| == 512 && |pe| == 64 && i < 64 && other <= 126
    requires rs == NonZero(MaxAbs(pe) / 448.0) && ops.fromBytes(ops.toBytes(rs)) == rs
    requires got == UnpackRope(ops, PackRecord(ops, kv, pe, latent))[i] && (u == E4M3(other) || u == -E4M3(other))
    ensures Abs(got - pe[i]) <= Abs(u * rs - pe[i])
  {
    var y := ops.div(pe[i], rs);
    RopeScaleIs(ops, round, pe, rs);
    ReaderRecoversRope(ops, kv, pe, latent, i);
    MaxAbsBounds(pe, pe[i]);
    ExactDiv(ops, round, pe[i], rs, y);
    RopeQuotient(pe[i], MaxAbs(pe), rs, y);
    var v := ops.fromE4M3(ops.toE4M3(y));
    assert Clamp(y, 448.0) == y;
    SignedNearest(ops, round, y, other, u);
    ExactMul(ops, round, v, rs, got);
    NearestScaled(v, u, y, rs, pe[i]);
  }

  lemma SignedNearest(ops: Ops, round: real -> nat, y: real, other: nat, u: real)
    requires Exact(ops, round) && Abs(y) <= 448.0 && other <= 126 && (u == E4M3(other) || u == -E4M3(other))
    ensures Abs(ops.fromE4M3(ops.toE4M3(y)) - y) <= Abs(u - y)
  {
    var c := round(Abs(y));
    assert c <= 126 && Abs(E4M3(c) - Abs(y)) <= Abs(E4M3(other) - Abs(y));
  }

  /** A non-zero entry of a group whose scale vanished keeps its sign with the largest code, since
      the stand-in scale is tiny. */
  lemma VanishedCodes(ops: Ops, round: real -> nat, kv: seq<real>, pe: seq<real>, latent: real, d: nat, x: real)
    requires Exact(ops, round) && |kv| == 512 && |pe| == 64 && d < 512
    requires MaxAbs(Group(Divided(ops, kv, latent), d / 16)) / 6.0 < 1.0 / 1024.0
    requires x == Divided(ops, kv, latent)[d]
    ensures x > 0.00000006 ==> E2M1Decode(CodeAt(PackRecord(ops, kv, pe, latent), d)) == 6.0
    ensures x < -0.00000006 ==> E2M1Decode(CodeAt(PackRecord(ops, kv, pe, latent), d)) == -6.0
  {
    var all := Divided(ops, kv, latent);
    ReaderRecoversCodes(ops, kv, pe, latent, d);
    VanishedScale(ops, round, MaxAbs(Group(all, d / 16)), ScaleByte(ops, all, d / 16));
    var y := ops.div(x, 0.00000001);
    ExactDiv(ops, round, x, 0.00000001, y);
    OverClamp(y);
    assert Code(ops, all, d) == QuotientCode(y);
  }
}
