/** The tail-biting trellis codec: a tile's elements are overlapping 16-bit windows of a
    circular bit ring, chosen greedily element by element. */
module Trellis {
  import opened ModArith
  import opened Reals
  import opened Bits

  type Ring = seq<Bit>

  /** Bits per element, elements per tile, and the codeword-to-value table. */
  datatype Code = Code(k: nat, n: nat, lut: nat -> real) {
    function Total(): nat { k * n }

    /** Every window is 16 distinct positions and contains its own field. */
    predicate Valid() { 1 <= k <= 16 && 1 <= n && 16 <= Total() }
  }

  /** Position of bit j of element t's window, which ends where its own field ends. */
  function WindowPos(c: Code, t: nat, j: nat): (p: nat)
    requires c.Valid()
    ensures p < c.Total()
  {
    ((t + 1) * c.k - 16 + j) % c.Total()
  }

  function Window(c: Code, ring: Ring, t: nat): (w: seq<Bit>)
    requires c.Valid() && |ring| == c.Total()
    ensures |w| == 16
  {
    seq(16, j requires 0 <= j < 16 => ring[WindowPos(c, t, j)])
  }

  function Codeword(c: Code, ring: Ring, t: nat): nat
    requires c.Valid() && |ring| == c.Total()
  {
    Value(Window(c, ring, t))
  }

  /** The ring with element t's own field [t*k, (t+1)*k) set to `choice`. */
  function WithField(c: Code, ring: Ring, t: nat, choice: nat): (r: Ring)
    requires c.Valid() && |ring| == c.Total() && t < c.n
    ensures |r| == |ring|
  {
    FieldFits(c, t);
    ring[..t * c.k] + BitsOf(choice, c.k) + ring[(t + 1) * c.k..]
  }

  lemma FieldFits(c: Code, t: nat)
    requires t < c.n
    ensures (t + 1) * c.k == t * c.k + c.k <= c.Total()
  {
    var d := c.n - (t + 1);
    assert d * c.k >= 0;
    assert c.k * c.n == (t + 1) * c.k + d * c.k;
  }

  /** The error of a choice for element t. */
  function Err(c: Code, ring: Ring, t: nat, target: real, choice: nat): real
    requires c.Valid() && |ring| == c.Total() && t < c.n
  {
    Abs(c.lut(Codeword(c, WithField(c, ring, t, choice), t)) - target)
  }

  /** The first index of the least element. */
  ghost predicate IsFirstMin(errs: seq<real>, m: nat) {
    && m < |errs|
    && (forall i | 0 <= i < |errs| :: errs[m] <= errs[i])
    && (forall i | 0 <= i < m :: errs[m] < errs[i])
  }

  function FirstMin(errs: seq<real>): (m: nat)
    requires errs != []
    ensures m < |errs|
  {
    if |errs| == 1 then 0
    else
      var n := |errs| - 1;
      var m := FirstMin(errs[..n]);
      if errs[n] < errs[m] then n else m
  }

  lemma {:induction false} FirstMinIs(errs: seq<real>)
    requires errs != []
    ensures IsFirstMin(errs, FirstMin(errs))
  {
    if |errs| > 1 {
      FirstMinIs(errs[..|errs| - 1]);
    }
  }

  function Errs(c: Code, ring: Ring, t: nat, target: real, choices: nat): (e: seq<real>)
    requires c.Valid() && |ring| == c.Total() && t < c.n
    ensures |e| == choices
  {
    seq(choices, i requires 0 <= i < choices => Err(c, ring, t, target, i))
  }

  /** The greedy choice among all 2^k fields. */
  function Best(c: Code, ring: Ring, t: nat, target: real): (b: nat)
    requires c.Valid() && |ring| == c.Total() && t < c.n
    ensures b < Pow2(c.k)
  {
    FirstMin(Errs(c, ring, t, target, Pow2(c.k)))
  }

  function Encode(c: Code, ring: Ring, t: nat, target: real): (r: Ring)
    requires c.Valid() && |ring| == c.Total() && t < c.n
    ensures |r| == |ring|
  {
    WithField(c, ring, t, Best(c, ring, t, target))
  }

  /** The successive rings of a pass: each turn encodes the next element in the ring so far. */
  ghost predicate IsPass(c: Code, rings: seq<Ring>, targets: seq<real>, m: nat)
    requires c.Valid() && |targets| == c.n && m <= c.n
  {
    && |rings| == m + 1
    && (forall i | 0 <= i <= m :: |rings[i]| == c.Total())
    && (forall i {:trigger targets[i]} | 0 <= i < m :: rings[i + 1] == Encode(c, rings[i], i, targets[i]))
  }

  lemma TurnExtends(c: Code, rings: seq<Ring>, targets: seq<real>, m: nat)
    requires c.Valid() && |targets| == c.n && m < c.n && IsPass(c, rings, targets, m)
    ensures IsPass(c, rings + [Encode(c, rings[m], m, targets[m])], targets, m + 1)
  {
    var after := rings + [Encode(c, rings[m], m, targets[m])];
    forall i | 0 <= i < m + 1 ensures after[i + 1] == Encode(c, after[i], i, targets[i]) {
      if i < m {
        assert rings[i + 1] == Encode(c, rings[i], i, targets[i]);
      }
    }
  }

  /** A full pass takes one ring to another. */
  ghost predicate PassTo(c: Code, from: Ring, targets: seq<real>, to: Ring)
    requires c.Valid() && |targets| == c.n
  {
    exists rings :: IsPass(c, rings, targets, c.n) && rings[0] == from && rings[c.n] == to
  }

  /** A pass is determined by the ring it starts from. */
  lemma {:induction false} PassUnique(c: Code, a: seq<Ring>, b: seq<Ring>, targets: seq<real>, m: nat)
    requires c.Valid() && |targets| == c.n && IsPass(c, a, targets, c.n) && IsPass(c, b, targets, c.n)
    requires a[0] == b[0] && m <= c.n
    ensures a[m] == b[m]
  {
    if m > 0 {
      PassUnique(c, a, b, targets, m - 1);
      assert a[m] == Encode(c, a[m - 1], m - 1, targets[m - 1]);
    }
  }

  // ---- where windows and fields lie ----

  lemma WithFieldAt(c: Code, ring: Ring, t: nat, choice: nat, i: nat)
    requires c.Valid() && |ring| == c.Total() && t < c.n && i < |ring|
    ensures WithField(c, ring, t, choice)[i] ==
            if t * c.k <= i < (t + 1) * c.k then BitsOf(choice, c.k)[i - t * c.k] else ring[i]
  {
    FieldFits(c, t);
  }

  /** The last k bits of the window are the element's own field, the rest lie outside it. */
  lemma WindowSplit(c: Code, t: nat, j: nat)
    requires c.Valid() && t < c.n && j < 16
    ensures j >= 16 - c.k ==> WindowPos(c, t, j) == t * c.k + j - (16 - c.k)
    ensures j < 16 - c.k ==> !(t * c.k <= WindowPos(c, t, j) < (t + 1) * c.k)
    ensures (t + 1) * c.k >= 16 ==> WindowPos(c, t, j) == (t + 1) * c.k - 16 + j
  {
    FieldFits(c, t);
    var x := (t + 1) * c.k - 16 + j;
    if x >= 0 {
      DivModIs(x, c.Total(), 0, x);
    } else {
      DivModIs(x, c.Total(), -1, x + c.Total());
    }
  }

  /** A window runs along the ring without a gap, across its end too. */
  lemma WindowContiguous(c: Code, t: nat, j: nat)
    requires c.Valid() && t < c.n && j + 1 < 16
    ensures WindowPos(c, t, j + 1) == if WindowPos(c, t, j) + 1 == c.Total() then 0 else WindowPos(c, t, j) + 1
  {
    var x, n := (t + 1) * c.k - 16 + j, c.Total();
    var q, m := x / n, x % n;
    assert x == q * n + m;
    if m + 1 == n {
      assert x + 1 == (q + 1) * n;
      DivModIs(x + 1, n, q + 1, 0);
    } else {
      DivModIs(x + 1, n, q, m + 1);
    }
  }

  /** The codeword of a candidate: the context bits below, the choice above. */
  lemma CandidateCodeword(c: Code, ring: Ring, t: nat, choice: nat)
    requires c.Valid() && |ring| == c.Total() && t < c.n
    ensures
      var ctx := Window(c, ring, t)[..16 - c.k];
      && Window(c, WithField(c, ring, t, choice), t) == ctx + BitsOf(choice, c.k)
      && Codeword(c, WithField(c, ring, t, choice), t) == Value(ctx) + Pow2(16 - c.k) * (choice % Pow2(c.k))
  {
    var ctx := Window(c, ring, t)[..16 - c.k];
    var w := Window(c, WithField(c, ring, t, choice), t);
    forall j | 0 <= j < 16 ensures w[j] == (ctx + BitsOf(choice, c.k))[j] {
      WindowSplit(c, t, j);
      FieldFits(c, t);
      WithFieldAt(c, ring, t, choice, WindowPos(c, t, j));
    }
    assert w == ctx + BitsOf(choice, c.k);
    ValueConcat(ctx, BitsOf(choice, c.k));
    ValueOfBits(choice, c.k);
  }

  // ---- greedy stability ----

  /** Encoding another element leaves a window it does not reach alone. */
  lemma LaterFieldOutside(c: Code, ring: Ring, t: nat, u: nat, choice: nat)
    requires c.Valid() && |ring| == c.Total() && t < u < c.n && (t + 1) * c.k >= 16
    ensures Window(c, WithField(c, ring, u, choice), t) == Window(c, ring, t)
  {
    var d := u - (t + 1);
    assert d * c.k >= 0;
    assert u * c.k == (t + 1) * c.k + d * c.k;
    forall j | 0 <= j < 16 ensures Window(c, WithField(c, ring, u, choice), t)[j] == Window(c, ring, t)[j] {
      WindowSplit(c, t, j);
      WithFieldAt(c, ring, u, choice, WindowPos(c, t, j));
    }
  }

  lemma {:induction false} WindowSettled(c: Code, rings: seq<Ring>, targets: seq<real>, t: nat, m: nat)
    requires c.Valid() && |targets| == c.n && IsPass(c, rings, targets, c.n) && t < m <= c.n && (t + 1) * c.k >= 16
    ensures Window(c, rings[m], t) == Window(c, rings[t + 1], t)
  {
    if m > t + 1 {
      WindowSettled(c, rings, targets, t, m - 1);
      LaterFieldOutside(c, rings[m - 1], t, m - 1, Best(c, rings[m - 1], m - 1, targets[m - 1]));
    }
  }

  /** Candidates only depend on the context bits of the window. */
  lemma SameContextSameErr(c: Code, a: Ring, b: Ring, t: nat, target: real, choice: nat)
    requires c.Valid() && |a| == |b| == c.Total() && t < c.n
    requires Window(c, a, t)[..16 - c.k] == Window(c, b, t)[..16 - c.k]
    ensures Err(c, a, t, target, choice) == Err(c, b, t, target, choice)
  {
    CandidateCodeword(c, a, t, choice);
    CandidateCodeword(c, b, t, choice);
  }

  /** A choice beyond k bits is the same candidate as its low k bits. */
  lemma ReducedChoice(c: Code, ring: Ring, t: nat, target: real, choice: nat)
    requires c.Valid() && |ring| == c.Total() && t < c.n
    ensures choice % Pow2(c.k) < Pow2(c.k)
    ensures Err(c, ring, t, target, choice) == Err(c, ring, t, target, choice % Pow2(c.k))
  {
    CandidateCodeword(c, ring, t, choice);
    CandidateCodeword(c, ring, t, choice % Pow2(c.k));
    DivModIs(choice % Pow2(c.k), Pow2(c.k), 0, choice % Pow2(c.k));
  }

  /** The greedy choice is at least as good as any choice. */
  lemma BestIsBest(c: Code, ring: Ring, t: nat, target: real, choice: nat)
    requires c.Valid() && |ring| == c.Total() && t < c.n
    ensures Err(c, ring, t, target, Best(c, ring, t, target)) <= Err(c, ring, t, target, choice)
  {
    ReducedChoice(c, ring, t, target, choice);
    var errs := Errs(c, ring, t, target, Pow2(c.k));
    FirstMinIs(errs);
    assert errs[FirstMin(errs)] <= errs[choice % Pow2(c.k)];
  }

  /** Greedy stability: after a full pass from any ring, an element whose window does not
      wrap still has the codeword chosen at its own turn, and no other choice of its own
      field has a smaller error against the final ring. */
  lemma GreedyStable(c: Code, rings: seq<Ring>, targets: seq<real>, t: nat, choice: nat)
    requires c.Valid() && |targets| == c.n && IsPass(c, rings, targets, c.n) && t < c.n && (t + 1) * c.k >= 16
    ensures Codeword(c, rings[c.n], t) == Codeword(c, rings[t + 1], t)
    ensures Abs(c.lut(Codeword(c, rings[c.n], t)) - targets[t]) <= Err(c, rings[c.n], t, targets[t], choice)
  {
    WindowSettled(c, rings, targets, t, c.n);
    CandidateCodeword(c, rings[t], t, Best(c, rings[t], t, targets[t]));
    SameContextSameErr(c, rings[t], rings[c.n], t, targets[t], choice);
    BestIsBest(c, rings[t], t, targets[t], choice);
  }

  // ---- packing and decoding ----

  /** The ring packed into 32-bit words, stream bit i in word i / 32 at bit i % 32. */
  function Pack(ring: Ring): (words: seq<nat>)
    ensures |words| == |ring| / 32
  {
    seq(|ring| / 32, i requires 0 <= i < |ring| / 32 => Value(ring[32 * i..32 * i + 32]))
  }

  /** Stream bit i of the packed words. */
  function WordBit(words: seq<nat>, i: nat): (b: Bit)
    requires i / 32 < |words|
  {
    BitAt(words[i / 32], i % 32)
  }

  lemma PackedBit(ring: Ring, i: nat)
    requires |ring| % 32 == 0 && i < |ring|
    ensures WordBit(Pack(ring), i) == ring[i]
  {
    var w, b := i / 32, i % 32;
    assert i == 32 * w + b && 32 * w + 32 <= |ring|;
    BitValue(ring[32 * w..32 * w + 32], b);
  }

  /** What the decoder reads for element t. */
  function TileDecode(c: Code, words: seq<nat>, t: nat): real
    requires c.Valid() && |words| * 32 == c.Total() && t < c.n
  {
    c.lut(Value(seq(16, j requires 0 <= j < 16 => WordBit(words, WindowPos(c, t, j)))))
  }

  lemma DecodePacked(c: Code, ring: Ring, t: nat)
    requires c.Valid() && |ring| == c.Total() && c.Total() % 32 == 0 && t < c.n
    ensures TileDecode(c, Pack(ring), t) == c.lut(Codeword(c, ring, t))
  {
    var bits := seq(16, j requires 0 <= j < 16 => WordBit(Pack(ring), WindowPos(c, t, j)));
    forall j | 0 <= j < 16 ensures bits[j] == Window(c, ring, t)[j] {
      PackedBit(ring, WindowPos(c, t, j));
    }
    assert bits == Window(c, ring, t);
  }

  /** Through packing and decoding: an element whose window does not wrap decodes to the
      value chosen at its own turn, which no other choice of its field would improve. */
  lemma DecodeGivesChosenValue(c: Code, rings: seq<Ring>, targets: seq<real>, t: nat, choice: nat)
    requires c.Valid() && |targets| == c.n && IsPass(c, rings, targets, c.n) && c.Total() % 32 == 0
    requires t < c.n && (t + 1) * c.k >= 16
    ensures
      var value := TileDecode(c, Pack(rings[c.n]), t);
      && value == c.lut(Codeword(c, rings[t + 1], t))
      && Abs(value - targets[t]) <= Err(c, rings[c.n], t, targets[t], choice)
  {
    DecodePacked(c, rings[c.n], t);
    GreedyStable(c, rings, targets, t, choice);
  }

  // ---- where stability ends ----

  lemma FirstMinUnique(errs: seq<real>, m: nat)
    requires errs != [] && IsFirstMin(errs, m)
    ensures FirstMin(errs) == m
  {
    FirstMinIs(errs);
  }

  function Zeros(n: nat): (z: Ring)
    ensures |z| == n && forall i | 0 <= i < n :: z[i] == 0
  {
    seq(n, _ => 0)
  }

  lemma {:induction false} ValueZero(bits: seq<Bit>)
    ensures (forall i | 0 <= i < |bits| :: bits[i] == 0) <==> Value(bits) == 0
  {
    if bits != [] {
      ValueZero(bits[1..]);
      assert forall i | 0 <= i < |bits[1..]| :: bits[1..][i] == bits[i + 1];
    }
  }

  /** In an all-zero ring a choice's codeword is the choice shifted up. */
  lemma ZeroRingCodeword(c: Code, t: nat, choice: nat)
    requires c.Valid() && t < c.n && choice < Pow2(c.k)
    ensures Codeword(c, WithField(c, Zeros(c.Total()), t, choice), t) == Pow2(16 - c.k) * choice
  {
    CandidateCodeword(c, Zeros(c.Total()), t, choice);
    ValueZero(Window(c, Zeros(c.Total()), t)[..16 - c.k]);
    DivModIs(choice, Pow2(c.k), 0, choice);
  }

  lemma MulMono(p: nat, a: nat, b: nat)
    requires a <= b
    ensures p * a <= p * b && p * (a + 1) == p * a + p && p * 0 == 0 && p * 1 == p
  {
    assert p * (b - a) >= 0;
  }

  lemma MulCancel(k: nat, a: nat, b: nat)
    requires a * k < k * b
    ensures a < b
  {
    assert a >= b ==> k * (a - b) >= 0;
  }

  lemma MakePass(c: Code, ring: Ring, targets: seq<real>, m: nat) returns (rings: seq<Ring>)
    requires c.Valid() && |ring| == c.Total() && |targets| == c.n && m <= c.n
    ensures IsPass(c, rings, targets, m) && rings[0] == ring
  {
    rings := [ring];
    for i := 0 to m
      invariant IsPass(c, rings, targets, i) && rings[0] == ring
    {
      TurnExtends(c, rings, targets, i);
      rings := rings + [Encode(c, rings[i], i, targets[i])];
    }
  }

  lemma {:induction false} BitOfZero(b: nat)
    ensures BitAt(0, b) == 0
  {
    if b > 0 {
      BitOfZero(b - 1);
    }
  }

  lemma {:induction false} TopBitOfOnes(k: nat)
    requires k >= 1
    ensures BitAt(Pow2(k) - 1, k - 1) == 1
  {
    if k > 1 {
      TopBitOfOnes(k - 1);
    }
  }

  /** p greedy passes take one ring to another. */
  ghost predicate PassesTo(c: Code, from: Ring, targets: seq<real>, p: nat, to: Ring)
    requires c.Valid() && |targets| == c.n
  {
    if p == 0 then to == from
    else exists mid :: PassesTo(c, from, targets, p - 1, mid) && PassTo(c, mid, targets, to)
  }

  lemma {:induction false} MakePasses(c: Code, ring: Ring, targets: seq<real>, p: nat) returns (after: Ring)
    requires c.Valid() && |ring| == c.Total() && |targets| == c.n
    ensures |after| == c.Total() && PassesTo(c, ring, targets, p, after)
  {
    after := ring;
    if p > 0 {
      var mid := MakePasses(c, ring, targets, p - 1);
      var rings := MakePass(c, mid, targets, c.n);
      after := rings[c.n];
      assert PassTo(c, mid, targets, after);
    }
  }

  /** The last bit of element u's field. */
  function LastBit(c: Code, ring: Ring, u: nat): Bit
    requires c.Valid() && |ring| == c.Total() && u < c.n
  {
    FieldFits(c, u);
    ring[(u + 1) * c.k - 1]
  }

  /** A table comparing a window's last bit with the bit d places before it. */
  function Flag(d: nat): nat -> real
    requires d <= 15
  {
    w => if BitAt(w, 15) == BitAt(w, 15 - d) then 0.0 else 1.0
  }

  /** The element t + 1 places before u on the ring. */
  function Before(c: Code, t: nat, u: nat): (v: nat)
    requires t + 1 < c.n && u < c.n
    ensures v < c.n && v != u
  {
    if u > t then u - t - 1 else c.n + u - t - 1
  }

  lemma BeforeProduct(c: Code, t: nat, u: nat)
    requires t + 1 < c.n && u < c.n
    ensures
      var v := Before(c, t, u);
      (v + 1) * c.k == (u + 1) * c.k - (t + 1) * c.k + if u > t then 0 else c.n * c.k
  {
    var k := c.k;
    if u > t {
      assert (u - t) * k == (u + 1) * k - (t + 1) * k;
    } else {
      assert (c.n + u - t) * k == c.n * k + (u + 1) * k - (t + 1) * k;
    }
  }

  lemma WindowPosIs(c: Code, u: nat, j: nat, own: nat, p: nat, turns: int)
    requires c.Valid() && own == (u + 1) * c.k && own - 16 + j == turns * c.Total() + p && p < c.Total()
    ensures WindowPos(c, u, j) == p
  {
    DivModIs(own - 16 + j, c.Total(), turns, p);
  }

  lemma OwnPos(c: Code, u: nat)
    requires c.Valid() && u < c.n
    ensures WindowPos(c, u, 15) == (u + 1) * c.k - 1
  {
    var own := (u + 1) * c.k;
    FieldFits(c, u);
    WindowPosIs(c, u, 15, own, own - 1, 0);
  }

  lemma BeforePos(c: Code, t: nat, u: nat, d: nat)
    requires c.Valid() && t + 1 < c.n && u < c.n && d == (t + 1) * c.k && d <= 15
    ensures WindowPos(c, u, 15 - d) == (Before(c, t, u) + 1) * c.k - 1
  {
    var own, before := (u + 1) * c.k, (Before(c, t, u) + 1) * c.k;
    FieldFits(c, Before(c, t, u));
    BeforeProduct(c, t, u);
    WindowPosIs(c, u, 15 - d, own, before - 1, if u > t then 0 else -1);
  }

  /** With this table an element's value says whether its last bit differs from that of the
      element t + 1 places before. */
  lemma FlagValue(c: Code, ring: Ring, t: nat, u: nat)
    requires c.Valid() && |ring| == c.Total() && t + 1 < c.n && u < c.n
    requires (t + 1) * c.k <= 15 && c.lut == Flag((t + 1) * c.k)
    ensures c.lut(Codeword(c, ring, u)) == if LastBit(c, ring, u) == LastBit(c, ring, Before(c, t, u)) then 0.0 else 1.0
  {
    OwnPos(c, u);
    BeforePos(c, t, u, (t + 1) * c.k);
    BitValue(Window(c, ring, u), 15);
    BitValue(Window(c, ring, u), 15 - (t + 1) * c.k);
  }

  /** A choice whose field ends with a given bit. */
  function Ending(k: nat, bit: Bit): nat { if bit == 1 then Pow2(k) - 1 else 0 }

  lemma FieldLastBit(c: Code, ring: Ring, u: nat, choice: nat, v: nat)
    requires c.Valid() && |ring| == c.Total() && u < c.n && v < c.n
    ensures LastBit(c, WithField(c, ring, u, choice), v) ==
            if v == u then BitAt(choice, c.k - 1) else LastBit(c, ring, v)
  {
    var at := (v + 1) * c.k - 1;
    FieldFits(c, v);
    WithFieldAt(c, ring, u, choice, at);
    FieldsApart(u, v, c.k, at);
  }

  lemma FieldsApart(u: nat, v: nat, k: nat, at: int)
    requires k >= 1 && at == (v + 1) * k - 1
    ensures u * k <= at < (u + 1) * k <==> v == u
    ensures v == u ==> at - u * k == k - 1
  {
    if u * k <= at < (u + 1) * k {
      QuotientUnique(k, u, at - u * k, v, k - 1);
    }
  }

  lemma EndingBit(k: nat, bit: Bit)
    requires k >= 1
    ensures BitAt(Ending(k, bit), k - 1) == bit
  {
    TopBitOfOnes(k);
    BitOfZero(k - 1);
  }

  /** Ending the field with the right bit meets a target of 0 or 1. */
  lemma EndingMeets(c: Code, ring: Ring, t: nat, u: nat, bit: Bit)
    requires c.Valid() && |ring| == c.Total() && t + 1 < c.n && u < c.n
    requires (t + 1) * c.k <= 15 && c.lut == Flag((t + 1) * c.k)
    ensures Err(c, ring, u, if bit == LastBit(c, ring, Before(c, t, u)) then 0.0 else 1.0, Ending(c.k, bit)) == 0.0
  {
    var trial := WithField(c, ring, u, Ending(c.k, bit));
    EndingBit(c.k, bit);
    FieldLastBit(c, ring, u, Ending(c.k, bit), u);
    FieldLastBit(c, ring, u, Ending(c.k, bit), Before(c, t, u));
    FlagValue(c, trial, t, u);
  }

  /** So a turn with target 0 copies that bit, and one with target 1 negates it. */
  lemma FlagTurn(c: Code, ring: Ring, t: nat, u: nat, target: real)
    requires c.Valid() && |ring| == c.Total() && t + 1 < c.n && u < c.n
    requires (t + 1) * c.k <= 15 && c.lut == Flag((t + 1) * c.k) && (target == 0.0 || target == 1.0)
    ensures
      var source := LastBit(c, ring, Before(c, t, u));
      LastBit(c, Encode(c, ring, u, target), u) == if target == 0.0 then source else 1 - source
    ensures forall v | 0 <= v < c.n && v != u :: LastBit(c, Encode(c, ring, u, target), v) == LastBit(c, ring, v)
  {
    var source, best := LastBit(c, ring, Before(c, t, u)), Best(c, ring, u, target);
    var bit: Bit := if target == 0.0 then source else 1 - source;
    EndingMeets(c, ring, t, u, bit);
    BestIsBest(c, ring, u, target, Ending(c.k, bit));
    forall v | 0 <= v < c.n ensures LastBit(c, Encode(c, ring, u, target), v) ==
      if v == u then BitAt(best, c.k - 1) else LastBit(c, ring, v)
    {
      FieldLastBit(c, ring, u, best, v);
    }
    FlagValue(c, Encode(c, ring, u, target), t, u);
  }

  /** Target 1 up to element t, 0 from there on. */
  function FlagTargets(n: nat, t: nat): (targets: seq<real>)
    ensures |targets| == n
  {
    seq(n, u => if u <= t then 1.0 else 0.0)
  }

  /** All fields end with the same bit. */
  ghost predicate Uniform(c: Code, ring: Ring, bit: Bit)
    requires c.Valid() && |ring| == c.Total()
  {
    forall u | 0 <= u < c.n :: LastBit(c, ring, u) == bit
  }

  /** Through a pass every element in turn takes the opposite last bit. */
  lemma {:induction false} FlagPass(c: Code, rings: seq<Ring>, t: nat, bit: Bit, m: nat)
    requires c.Valid() && t + 1 < c.n && (t + 1) * c.k <= 15 && c.lut == Flag((t + 1) * c.k)
    requires IsPass(c, rings, FlagTargets(c.n, t), c.n) && Uniform(c, rings[0], bit) && m <= c.n
    ensures forall u | 0 <= u < c.n :: LastBit(c, rings[m], u) == if u < m then 1 - bit else bit
  {
    if m > 0 {
      var targets := FlagTargets(c.n, t);
      FlagPass(c, rings, t, bit, m - 1);
      assert rings[m] == Encode(c, rings[m - 1], m - 1, targets[m - 1]);
      FlagTurn(c, rings[m - 1], t, m - 1, targets[m - 1]);
    }
  }

  lemma FlagPassFlips(c: Code, from: Ring, t: nat, bit: Bit, ring: Ring)
    requires c.Valid() && t + 1 < c.n && (t + 1) * c.k <= 15 && c.lut == Flag((t + 1) * c.k)
    requires |from| == |ring| == c.Total() && PassTo(c, from, FlagTargets(c.n, t), ring) && Uniform(c, from, bit)
    ensures Uniform(c, ring, 1 - bit)
  {
    var rings :| IsPass(c, rings, FlagTargets(c.n, t), c.n) && rings[0] == from && rings[c.n] == ring;
    FlagPass(c, rings, t, bit, c.n);
  }

  lemma ZerosUniform(c: Code)
    requires c.Valid()
    ensures Uniform(c, Zeros(c.Total()), 0)
  {
    forall u | 0 <= u < c.n ensures LastBit(c, Zeros(c.Total()), u) == 0 {
      FieldFits(c, u);
    }
  }

  lemma {:induction false} FlagPasses(c: Code, t: nat, p: nat, ring: Ring)
    requires c.Valid() && t + 1 < c.n && (t + 1) * c.k <= 15 && c.lut == Flag((t + 1) * c.k)
    requires |ring| == c.Total() && PassesTo(c, Zeros(c.Total()), FlagTargets(c.n, t), p, ring)
    ensures Uniform(c, ring, p % 2)
  {
    ZerosUniform(c);
    if p > 0 {
      var targets := FlagTargets(c.n, t);
      var mid :| PassesTo(c, Zeros(c.Total()), targets, p - 1, mid) && PassTo(c, mid, targets, ring);
      FlagPasses(c, t, p - 1, mid);
      FlagPassFlips(c, mid, t, (p - 1) % 2, ring);
    }
  }

  /** In the last of p passes from an all-zero ring, whatever the table and the targets, element
      t keeps the codeword chosen at its own turn. */
  ghost predicate AlwaysStable(k: nat, n: nat, t: nat, p: nat)
    requires 1 <= k <= 16 && 16 <= k * n && t < n && p >= 1
  {
    forall lut: nat -> real, rings: seq<Ring>, targets: seq<real> |
      |targets| == n && IsPass(Code(k, n, lut), rings, targets, n) &&
      PassesTo(Code(k, n, lut), Zeros(k * n), targets, p - 1, rings[0]) ::
      Codeword(Code(k, n, lut), rings[n], t) == Codeword(Code(k, n, lut), rings[t + 1], t)
  }

  /** After p passes from an all-zero ring, whatever the table and the targets, no other choice
      of element t's field has a smaller error. */
  ghost predicate AlwaysOptimal(k: nat, n: nat, t: nat, p: nat)
    requires 1 <= k <= 16 && 16 <= k * n && t < n
  {
    forall lut: nat -> real, ring: Ring, targets: seq<real>, choice: nat |
      |targets| == n && |ring| == k * n && PassesTo(Code(k, n, lut), Zeros(k * n), targets, p, ring) ::
      Abs(lut(Codeword(Code(k, n, lut), ring, t)) - targets[t]) <= Err(Code(k, n, lut), ring, t, targets[t], choice)
  }

  lemma PassesOptimal(c: Code, targets: seq<real>, p: nat, ring: Ring, t: nat, choice: nat)
    requires c.Valid() && |targets| == c.n && t < c.n && (t + 1) * c.k >= 16
    requires p >= 1 && |ring| == c.Total() && PassesTo(c, Zeros(c.Total()), targets, p, ring)
    ensures Abs(c.lut(Codeword(c, ring, t)) - targets[t]) <= Err(c, ring, t, targets[t], choice)
  {
    var mid :| PassesTo(c, Zeros(c.Total()), targets, p - 1, mid) && PassTo(c, mid, targets, ring);
    var rings :| IsPass(c, rings, targets, c.n) && rings[0] == mid && rings[c.n] == ring;
    GreedyStable(c, rings, targets, t, choice);
  }

  /** However many passes are made, an element's codeword survives the last one for every table
      and every targets exactly when its window does not wrap. */
  lemma StableIffNoWrap(k: nat, n: nat, t: nat, p: nat)
    requires 1 <= k <= 16 && 16 <= k * n && t < n && p >= 1
    ensures AlwaysStable(k, n, t, p) <==> (t + 1) * k >= 16
  {
    if (t + 1) * k >= 16 {
      forall lut: nat -> real, rings: seq<Ring>, targets: seq<real> |
        |targets| == n && IsPass(Code(k, n, lut), rings, targets, n) &&
        PassesTo(Code(k, n, lut), Zeros(k * n), targets, p - 1, rings[0])
        ensures Codeword(Code(k, n, lut), rings[n], t) == Codeword(Code(k, n, lut), rings[t + 1], t)
      {
        GreedyStable(Code(k, n, lut), rings, targets, t, 0);
      }
    } else {
      MulCancel(k, t + 1, n);
      WrapUnstable(k, n, t, p);
    }
  }

  /** And its value after any number of passes is the best its own field can give exactly then. */
  lemma OptimalIffNoWrap(k: nat, n: nat, t: nat, p: nat)
    requires 1 <= k <= 16 && 16 <= k * n && t < n && p >= 1
    ensures AlwaysOptimal(k, n, t, p) <==> (t + 1) * k >= 16
  {
    if (t + 1) * k >= 16 {
      forall lut: nat -> real, ring: Ring, targets: seq<real>, choice: nat |
        |targets| == n && |ring| == k * n && PassesTo(Code(k, n, lut), Zeros(k * n), targets, p, ring)
        ensures Abs(lut(Codeword(Code(k, n, lut), ring, t)) - targets[t]) <=
                Err(Code(k, n, lut), ring, t, targets[t], choice)
      {
        PassesOptimal(Code(k, n, lut), targets, p, ring, t, choice);
      }
    } else {
      MulCancel(k, t + 1, n);
      WrapSuboptimal(k, n, t, p);
    }
  }

  /** The failing input: every pass turns the last bits of the whole ring over after the wrapped
      element has been matched against the old ones. It met its target at its turn, misses it at
      the end, and would meet it with another choice. */
  lemma FlagRun(c: Code, t: nat, p: nat) returns (rings: seq<Ring>, choice: nat)
    requires c.Valid() && t + 1 < c.n && (t + 1) * c.k <= 15 && c.lut == Flag((t + 1) * c.k) && p >= 1
    ensures
      var targets := FlagTargets(c.n, t);
      && IsPass(c, rings, targets, c.n) && PassesTo(c, Zeros(c.Total()), targets, p - 1, rings[0])
      && PassesTo(c, Zeros(c.Total()), targets, p, rings[c.n])
      && c.lut(Codeword(c, rings[t + 1], t)) == 1.0 == targets[t] && c.lut(Codeword(c, rings[c.n], t)) == 0.0
      && Err(c, rings[c.n], t, 1.0, choice) == 0.0
  {
    var targets, bit := FlagTargets(c.n, t), (p - 1) % 2;
    var start := MakePasses(c, Zeros(c.Total()), targets, p - 1);
    rings := MakePass(c, start, targets, c.n);
    FlagPasses(c, t, p - 1, start);
    FlagOutcome(c, rings, t, bit);
    choice := Ending(c.k, bit);
    assert PassTo(c, start, targets, rings[c.n]);
  }

  lemma FlagOutcome(c: Code, rings: seq<Ring>, t: nat, bit: Bit)
    requires c.Valid() && t + 1 < c.n && (t + 1) * c.k <= 15 && c.lut == Flag((t + 1) * c.k)
    requires IsPass(c, rings, FlagTargets(c.n, t), c.n) && Uniform(c, rings[0], bit)
    ensures c.lut(Codeword(c, rings[t + 1], t)) == 1.0 && c.lut(Codeword(c, rings[c.n], t)) == 0.0
    ensures Err(c, rings[c.n], t, 1.0, Ending(c.k, bit)) == 0.0
  {
    FlagPass(c, rings, t, bit, t + 1);
    FlagPass(c, rings, t, bit, c.n);
    assert Before(c, t, t) == c.n - 1;
    FlagValue(c, rings[t + 1], t, t);
    FlagValue(c, rings[c.n], t, t);
    EndingMeets(c, rings[c.n], t, t, bit);
  }

  lemma WrapUnstable(k: nat, n: nat, t: nat, p: nat)
    requires 1 <= k <= 16 && 16 <= k * n && t + 1 < n && p >= 1 && (t + 1) * k < 16
    ensures !AlwaysStable(k, n, t, p)
  {
    var c := Code(k, n, Flag((t + 1) * k));
    var rings, choice := FlagRun(c, t, p);
    assert Codeword(Code(k, n, c.lut), rings[n], t) != Codeword(Code(k, n, c.lut), rings[t + 1], t);
  }

  lemma Spoils(k: nat, n: nat, t: nat, p: nat, lut: nat -> real, ring: Ring, targets: seq<real>, choice: nat)
    requires 1 <= k <= 16 && 16 <= k * n && t < n
    requires |targets| == n && |ring| == k * n && PassesTo(Code(k, n, lut), Zeros(k * n), targets, p, ring)
    requires Abs(lut(Codeword(Code(k, n, lut), ring, t)) - targets[t]) >
             Err(Code(k, n, lut), ring, t, targets[t], choice)
    ensures !AlwaysOptimal(k, n, t, p)
  {
  }

  lemma WrapSuboptimal(k: nat, n: nat, t: nat, p: nat)
    requires 1 <= k <= 16 && 16 <= k * n && t + 1 < n && p >= 1 && (t + 1) * k < 16
    ensures !AlwaysOptimal(k, n, t, p)
  {
    var c, targets := Code(k, n, Flag((t + 1) * k)), FlagTargets(n, t);
    var rings, choice := FlagRun(c, t, p);
    Spoils(k, n, t, p, c.lut, rings[n], targets, choice);
  }

  // ---- the vectorised encoder ----

  /** Rows of the vectorised encoder's choice matrix: it always has sixteen. */
  const VEC_CHOICES := 16

  /** The vectorised candidate: own bits cleared, the choice's low k bits added back. */
  function VecCodeword(c: Code, ring: Ring, t: nat, choice: nat): nat
    requires c.Valid() && |ring| == c.Total()
  {
    Value(Window(c, ring, t)[..16 - c.k]) + Pow2(16 - c.k) * Value(BitsOf(choice, c.k))
  }

  function VecErrs(c: Code, ring: Ring, t: nat, target: real): (e: seq<real>)
    requires c.Valid() && |ring| == c.Total()
    ensures |e| == VEC_CHOICES
  {
    seq(VEC_CHOICES, i requires 0 <= i < VEC_CHOICES => Abs(c.lut(VecCodeword(c, ring, t, i)) - target))
  }

  function VecEncode(c: Code, ring: Ring, t: nat, target: real): (r: Ring)
    requires c.Valid() && |ring| == c.Total() && t < c.n
    ensures |r| == |ring|
  {
    WithField(c, ring, t, FirstMin(VecErrs(c, ring, t, target)))
  }

  /** A vectorised candidate is the codeword trial writes give, for every choice. */
  lemma VecCandidate(c: Code, ring: Ring, t: nat, choice: nat)
    requires c.Valid() && |ring| == c.Total() && t < c.n
    ensures VecCodeword(c, ring, t, choice) == Codeword(c, WithField(c, ring, t, choice), t)
  {
    CandidateCodeword(c, ring, t, choice);
    ValueOfBits(choice, c.k);
  }

  lemma Pow2Mono(a: nat, b: nat)
    requires a <= b
    ensures Pow2(a) <= Pow2(b)
  {
    Pow2Add(a, b - a);
    MulMono(Pow2(a), 1, Pow2(b - a));
  }

  /** Up to four bits per element both encoders pick the same field: the sixteen candidates
      repeat the 2^k real ones in order, and the first minimum is among the first 2^k. */
  lemma VecRefines(c: Code, ring: Ring, t: nat, target: real)
    requires c.Valid() && |ring| == c.Total() && t < c.n && c.k <= 4
    ensures VecEncode(c, ring, t, target) == Encode(c, ring, t, target)
  {
    var errs, vec := Errs(c, ring, t, target, Pow2(c.k)), VecErrs(c, ring, t, target);
    var best := FirstMin(errs);
    Pow2Mono(c.k, 4);
    assert Pow2(4) == 16;
    FirstMinIs(errs);
    forall i | 0 <= i < VEC_CHOICES ensures i % Pow2(c.k) < |errs| && vec[i] == errs[i % Pow2(c.k)] {
      VecCandidate(c, ring, t, i);
      ReducedChoice(c, ring, t, target, i);
    }
    forall i | 0 <= i < |errs| ensures vec[i] == errs[i] {
      DivModIs(i, Pow2(c.k), 0, i);
    }
    FirstMinUnique(vec, best);
  }

  /** The table that makes choice 16 the only exact one. */
  function Sixteenth(k: nat): nat -> real
    requires k <= 16
  {
    w => if w == Pow2(16 - k) * 16 then 0.0 else 1.0
  }

  /** From five bits up the vectorised encoder cannot reach choice 16. */
  lemma VecMissesSixteen(k: nat, n: nat)
    requires 5 <= k <= 16 && 16 <= k * n && 1 <= n
    ensures
      var c := Code(k, n, Sixteenth(k));
      VecEncode(c, Zeros(c.Total()), 0, 0.0) != Encode(c, Zeros(c.Total()), 0, 0.0)
  {
    var c := Code(k, n, Sixteenth(k));
    var z := Zeros(c.Total());
    var p := Pow2(16 - k);
    Pow2Mono(5, k);
    assert Pow2(5) == 32;
    var errs, vec := Errs(c, z, 0, 0.0, Pow2(k)), VecErrs(c, z, 0, 0.0);
    forall i | 0 <= i < Pow2(k) ensures errs[i] == if i == 16 then 0.0 else 1.0 {
      ZeroRingCodeword(c, 0, i);
      SameProduct(p, i, 16);
    }
    FirstMinUnique(errs, 16);
    var v := FirstMin(vec);
    FieldsDiffer(c, z, 0, 16, v);
  }

  lemma SameProduct(p: nat, a: nat, b: nat)
    requires 0 < p
    ensures p * a == p * b <==> a == b
  {
    MultipleAway(a - b, p);
    assert (a - b) * p == p * a - p * b;
  }

  /** Different choices below 2^k write different fields. */
  lemma FieldsDiffer(c: Code, ring: Ring, t: nat, a: nat, b: nat)
    requires c.Valid() && |ring| == c.Total() && t < c.n && a < Pow2(c.k) && b < Pow2(c.k) && a != b
    ensures WithField(c, ring, t, a) != WithField(c, ring, t, b)
  {
    CandidateCodeword(c, ring, t, a);
    CandidateCodeword(c, ring, t, b);
    DivModIs(a, Pow2(c.k), 0, a);
    DivModIs(b, Pow2(c.k), 0, b);
    SameProduct(Pow2(16 - c.k), a, b);
  }

  /** The vectorised encoder picks the scalar encoder's field in every state. */
  ghost predicate VecAlwaysAgrees(k: nat, n: nat)
    requires 1 <= k <= 16 && 16 <= k * n && 1 <= n
  {
    forall lut: nat -> real, ring: Ring, t: nat, target: real | |ring| == k * n && t < n ::
      VecEncode(Code(k, n, lut), ring, t, target) == Encode(Code(k, n, lut), ring, t, target)
  }

  /** The vectorised encoder refines the scalar one exactly for up to four bits per element. */
  lemma VecAgreesIff(k: nat, n: nat)
    requires 1 <= k <= 16 && 16 <= k * n && 1 <= n
    ensures VecAlwaysAgrees(k, n) <==> k <= 4
  {
    if k <= 4 {
      forall lut: nat -> real, ring: Ring, t: nat, target: real | |ring| == k * n && t < n
        ensures VecEncode(Code(k, n, lut), ring, t, target) == Encode(Code(k, n, lut), ring, t, target)
      {
        VecRefines(Code(k, n, lut), ring, t, target);
      }
    } else {
      VecMissesSixteen(k, n);
    }
  }

  // ---- the vectorised encoder for one given table ----

  /** The codeword of a context and a choice. */
  function CodewordOf(c: Code, ctx: seq<Bit>, choice: nat): nat
    requires c.k <= 16
  {
    Value(ctx) + Pow2(16 - c.k) * choice
  }

  /** In every context each choice's value is also the value of one of the first sixteen. */
  ghost predicate FirstSixteenSuffice(c: Code)
    requires c.Valid()
  {
    forall ctx: seq<Bit>, choice: nat | |ctx| == 16 - c.k && choice < Pow2(c.k) :: OfferedEarly(c, ctx, choice)
  }

  ghost predicate OfferedEarly(c: Code, ctx: seq<Bit>, choice: nat)
    requires c.Valid()
  {
    exists early: nat :: early < VEC_CHOICES && early < Pow2(c.k) &&
      c.lut(CodewordOf(c, ctx, early)) == c.lut(CodewordOf(c, ctx, choice))
  }

  ghost predicate VecAgrees(c: Code)
    requires c.Valid()
  {
    forall ring: Ring, t: nat, target: real | |ring| == c.Total() && t < c.n ::
      VecEncode(c, ring, t, target) == Encode(c, ring, t, target)
  }

  lemma ErrOf(c: Code, ring: Ring, t: nat, target: real, choice: nat)
    requires c.Valid() && |ring| == c.Total() && t < c.n && choice < Pow2(c.k)
    ensures Err(c, ring, t, target, choice) ==
            Abs(c.lut(CodewordOf(c, Window(c, ring, t)[..16 - c.k], choice)) - target)
  {
    CandidateCodeword(c, ring, t, choice);
    DivModIs(choice, Pow2(c.k), 0, choice);
  }

  /** Where the scalar encoder's choice is among the first sixteen, both encoders agree. */
  lemma EarlyBestAgrees(c: Code, ring: Ring, t: nat, target: real)
    requires c.Valid() && |ring| == c.Total() && t < c.n && c.k > 4
    ensures Best(c, ring, t, target) < VEC_CHOICES ==> VecEncode(c, ring, t, target) == Encode(c, ring, t, target)
  {
    var errs, vec := Errs(c, ring, t, target, Pow2(c.k)), VecErrs(c, ring, t, target);
    Pow2Mono(4, c.k);
    assert Pow2(4) == 16;
    FirstMinIs(errs);
    forall i | 0 <= i < VEC_CHOICES ensures vec[i] == errs[i] {
      VecCandidate(c, ring, t, i);
    }
    if Best(c, ring, t, target) < VEC_CHOICES {
      FirstMinUnique(vec, Best(c, ring, t, target));
    }
  }

  lemma SufficeAgrees(c: Code, ring: Ring, t: nat, target: real)
    requires c.Valid() && |ring| == c.Total() && t < c.n && c.k > 4 && FirstSixteenSuffice(c)
    ensures Best(c, ring, t, target) < VEC_CHOICES
  {
    var errs, best, ctx := Errs(c, ring, t, target, Pow2(c.k)), Best(c, ring, t, target),
        Window(c, ring, t)[..16 - c.k];
    FirstMinIs(errs);
    assert OfferedEarly(c, ctx, best);
    var early: nat :| early < VEC_CHOICES && early < Pow2(c.k) &&
      c.lut(CodewordOf(c, ctx, early)) == c.lut(CodewordOf(c, ctx, best));
    ErrOf(c, ring, t, target, early);
    ErrOf(c, ring, t, target, best);
    assert errs[early] == errs[best];
  }

  /** The ring that shows a context to the last element. */
  function Showing(c: Code, ctx: seq<Bit>): (ring: Ring)
    requires c.Valid() && |ctx| == 16 - c.k
    ensures |ring| == c.Total()
  {
    Zeros(c.Total() - 16) + ctx + Zeros(c.k)
  }

  lemma ShowingContext(c: Code, ctx: seq<Bit>)
    requires c.Valid() && |ctx| == 16 - c.k
    ensures Window(c, Showing(c, ctx), c.n - 1)[..16 - c.k] == ctx
  {
    var u := c.n - 1;
    assert (u + 1) * c.k == c.Total();
    forall j | 0 <= j < 16 - c.k ensures Window(c, Showing(c, ctx), u)[j] == ctx[j] {
      WindowPosIs(c, u, j, c.Total(), c.Total() - 16 + j, 0);
    }
  }

  /** A choice whose value none of the first sixteen has, asked for exactly, is missed. */
  lemma LateChoiceMissed(c: Code, ctx: seq<Bit>, choice: nat)
    requires c.Valid() && c.k > 4 && |ctx| == 16 - c.k && choice < Pow2(c.k) && !OfferedEarly(c, ctx, choice)
    ensures
      var ring, target := Showing(c, ctx), c.lut(CodewordOf(c, ctx, choice));
      VecEncode(c, ring, c.n - 1, target) != Encode(c, ring, c.n - 1, target)
  {
    var u, ring, target := c.n - 1, Showing(c, ctx), c.lut(CodewordOf(c, ctx, choice));
    var best, vec := Best(c, ring, u, target), FirstMin(VecErrs(c, ring, u, target));
    Pow2Mono(4, c.k);
    assert Pow2(4) == 16;
    ShowingContext(c, ctx);
    ErrOf(c, ring, u, target, choice);
    ErrOf(c, ring, u, target, best);
    BestIsBest(c, ring, u, target, choice);
    FieldsDiffer(c, ring, u, best, vec);
  }

  /** For any one table: the vectorised encoder agrees with the scalar one on every ring and
      target if and only if in every context the first sixteen choices offer every value. */
  lemma VecAgreesForTableIff(c: Code)
    requires c.Valid()
    ensures VecAgrees(c) <==> FirstSixteenSuffice(c)
  {
    if c.k <= 4 {
      Pow2Mono(c.k, 4);
      assert Pow2(4) == 16;
      forall ring: Ring, t: nat, target: real | |ring| == c.Total() && t < c.n
        ensures VecEncode(c, ring, t, target) == Encode(c, ring, t, target)
      {
        VecRefines(c, ring, t, target);
      }
      forall ctx: seq<Bit>, choice: nat | |ctx| == 16 - c.k && choice < Pow2(c.k) ensures OfferedEarly(c, ctx, choice) {
        assert choice < VEC_CHOICES && c.lut(CodewordOf(c, ctx, choice)) == c.lut(CodewordOf(c, ctx, choice));
      }
    } else if FirstSixteenSuffice(c) {
      forall ring: Ring, t: nat, target: real | |ring| == c.Total() && t < c.n
        ensures VecEncode(c, ring, t, target) == Encode(c, ring, t, target)
      {
        SufficeAgrees(c, ring, t, target);
        EarlyBestAgrees(c, ring, t, target);
      }
    } else {
      var ctx: seq<Bit>, choice: nat :| |ctx| == 16 - c.k && choice < Pow2(c.k) && !OfferedEarly(c, ctx, choice);
      LateChoiceMissed(c, ctx, choice);
    }
  }
}
