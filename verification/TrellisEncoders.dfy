/** The three encoders of the trellis codec, in place on the bit ring, each proved to make
    the greedy pass of `Trellis`. */
module TrellisEncoders {
  import opened ModArith
  import opened Reals
  import opened Bits
  import opened Trellis

  lemma FieldPos(c: Code, t: nat, b: nat)
    requires c.Valid() && t < c.n && b < c.k
    ensures (t * c.k % c.Total() + b) % c.Total() == t * c.k + b < c.Total()
  {
    FieldFits(c, t);
    DivModIs(t * c.k, c.Total(), 0, t * c.k);
    DivModIs(t * c.k + b, c.Total(), 0, t * c.k + b);
  }

  /** The ring once the first b bits of element t's field have been written. */
  ghost predicate FieldWritten(c: Code, was: Ring, now: Ring, t: nat, choice: nat, b: nat) {
    && |now| == |was|
    && forall i | 0 <= i < |was| ::
         now[i] == if t * c.k <= i < t * c.k + b then BitAt(choice, i - t * c.k) else was[i]
  }

  lemma FieldComplete(c: Code, was: Ring, now: Ring, t: nat, choice: nat)
    requires c.Valid() && |was| == c.Total() && t < c.n && FieldWritten(c, was, now, t, choice, c.k)
    ensures now == WithField(c, was, t, choice)
  {
    FieldFits(c, t);
    forall i | 0 <= i < |was| ensures now[i] == WithField(c, was, t, choice)[i] {
      WithFieldAt(c, was, t, choice, i);
    }
  }

  /** Writing a choice bit by bit into the element's own field. */
  method WriteField(c: Code, ring: array<Bit>, t: nat, choice: nat)
    requires c.Valid() && ring.Length == c.Total() && t < c.n
    modifies ring
    ensures ring[..] == WithField(c, old(ring[..]), t, choice)
  {
    var base := t * c.k % c.Total();
    for b := 0 to c.k
      invariant FieldWritten(c, old(ring[..]), ring[..], t, choice, b)
    {
      FieldPos(c, t, b);
      ring[(base + b) % c.Total()] := BitAt(choice, b);
    }
    FieldComplete(c, old(ring[..]), ring[..], t, choice);
  }

  /** Summing a window's bits, each shifted to its place, gives the codeword. */
  method ReadCodeword(c: Code, ring: seq<Bit>, t: nat) returns (w0: nat)
    requires c.Valid() && |ring| == c.Total()
    ensures w0 == Codeword(c, ring, t)
  {
    w0 := 0;
    ghost var win := Window(c, ring, t);
    for j := 0 to 16
      invariant w0 == Value(win[..j])
    {
      AddTopBit(win, j);
      w0 := w0 + ring[((t + 1) * c.k - 16 + j) % c.Total()] * Pow2(j);
    }
    assert win[..16] == win;
  }

  lemma AddTopBit(bits: seq<Bit>, j: nat)
    requires j < |bits|
    ensures Value(bits[..j + 1]) == Value(bits[..j]) + bits[j] * Pow2(j)
  {
    assert bits[..j + 1] == bits[..j] + [bits[j]];
    ValueConcat(bits[..j], [bits[j]]);
    assert Value([bits[j]]) == bits[j];
    assert Pow2(j) * bits[j] == bits[j] * Pow2(j);
  }

  lemma FirstMinStep(errs: seq<real>, m: nat, i: nat)
    requires i < |errs| && 0 < i && IsFirstMin(errs[..i], m)
    ensures IsFirstMin(errs[..i + 1], if errs[i] < errs[m] then i else m)
  {
    assert errs[..i + 1] == errs[..i] + [errs[i]];
  }

  /** The candidate loop over fresh trial rings. */
  method EncodeElement(c: Code, ring: array<Bit>, t: nat, target: real) returns (err: real)
    requires c.Valid() && ring.Length == c.Total() && t < c.n
    modifies ring
    ensures ring[..] == Encode(c, old(ring[..]), t, target)
    ensures err == Abs(c.lut(Codeword(c, ring[..], t)) - target)
  {
    ghost var errs := Errs(c, ring[..], t, target, Pow2(c.k));
    err := 0.0;
    var best := 0;
    for choice := 0 to Pow2(c.k)
      invariant ring[..] == old(ring[..])
      invariant choice > 0 ==> IsFirstMin(errs[..choice], best) && err == errs[best]
    {
      var trial := new Bit[ring.Length](i requires 0 <= i < ring.Length reads ring => ring[i]);
      assert trial[..] == ring[..];
      WriteField(c, trial, t, choice);
      var w0 := ReadCodeword(c, trial[..], t);
      var e := Abs(c.lut(w0) - target);
      if choice > 0 {
        FirstMinStep(errs, best, choice);
      }
      if choice == 0 || e < err {
        err, best := e, choice;
      }
    }
    assert errs[..Pow2(c.k)] == errs;
    FirstMinUnique(errs, best);
    WriteField(c, ring, t, best);
  }

  /** Writing over a field twice leaves the last choice. */
  lemma Overwrite(c: Code, ring: Ring, t: nat, a: nat, b: nat)
    requires c.Valid() && |ring| == c.Total() && t < c.n
    ensures WithField(c, WithField(c, ring, t, a), t, b) == WithField(c, ring, t, b)
  {
    var once := WithField(c, ring, t, a);
    var twice, want := WithField(c, once, t, b), WithField(c, ring, t, b);
    forall i | 0 <= i < |ring| ensures twice[i] == want[i] {
      WithFieldAt(c, once, t, b, i);
      WithFieldAt(c, ring, t, a, i);
      WithFieldAt(c, ring, t, b, i);
    }
  }

  /** The candidate loop that tries its choices in the ring itself. */
  method EncodeElementInPlace(c: Code, ring: array<Bit>, t: nat, target: real)
    requires c.Valid() && ring.Length == c.Total() && t < c.n
    modifies ring
    ensures ring[..] == Encode(c, old(ring[..]), t, target)
  {
    ghost var was := ring[..];
    ghost var errs := Errs(c, was, t, target, Pow2(c.k));
    var bestE, bestC := 0.0, 0;
    for choice := 0 to Pow2(c.k)
      invariant choice > 0 ==> ring[..] == WithField(c, was, t, choice - 1)
      invariant choice == 0 ==> ring[..] == was
      invariant choice > 0 ==> IsFirstMin(errs[..choice], bestC) && bestE == errs[bestC]
    {
      if choice > 0 {
        Overwrite(c, was, t, choice - 1, choice);
        FirstMinStep(errs, bestC, choice);
      }
      WriteField(c, ring, t, choice);
      var w0 := ReadCodeword(c, ring[..], t);
      var e := Abs(c.lut(w0) - target);
      if choice == 0 || e < bestE {
        bestE, bestC := e, choice;
      }
    }
    assert errs[..Pow2(c.k)] == errs;
    FirstMinUnique(errs, bestC);
    Overwrite(c, was, t, Pow2(c.k) - 1, bestC);
    WriteField(c, ring, t, bestC);
  }

  /** Where each own-field bit sits inside its window: the first match in the index list. */
  method FindSlots(c: Code, t: nat) returns (slots: seq<nat>)
    requires c.Valid() && t < c.n
    ensures |slots| == c.k && forall b | 0 <= b < c.k :: slots[b] == 16 - c.k + b
  {
    slots := [];
    for b := 0 to c.k
      invariant |slots| == b && forall i | 0 <= i < b :: slots[i] == 16 - c.k + i
    {
      var fp := (t * c.k + b) % c.Total();
      FieldFits(c, t);
      DivModIs(t * c.k + b, c.Total(), 0, t * c.k + b);
      var j := 0;
      WindowSplit(c, t, 16 - c.k + b);
      while ((t + 1) * c.k - 16 + j) % c.Total() != fp
        invariant j <= 16 - c.k + b
        decreases 16 - j
      {
        assert WindowPos(c, t, j) != fp;
        j := j + 1;
      }
      WindowSplit(c, t, j);
      slots := slots + [j];
    }
  }

  /** Bits of a number at the top slots, summed in place. */
  lemma SlotSum(k: nat, field: seq<Bit>, b: nat)
    requires k <= 16 && |field| == k && b < k
    ensures Pow2(16 - k) * Value(field[..b + 1]) == Pow2(16 - k) * Value(field[..b]) + field[b] * Pow2(16 - k + b)
  {
    AddTopBit(field, b);
    Pow2Add(16 - k, b);
    if field[b] == 0 {
    } else {
      Distribute(Pow2(16 - k), Value(field[..b]), Pow2(b));
    }
  }

  lemma Distribute(p: int, a: int, b: int)
    ensures p * (a + b) == p * a + p * b
  {
  }

  /** Clear the own bits of the window's codeword by subtracting each in its place. */
  method ClearOwnBits(c: Code, ring: seq<Bit>, t: nat, slots: seq<nat>) returns (cleared: nat)
    requires c.Valid() && |ring| == c.Total() && t < c.n
    requires |slots| == c.k && forall b | 0 <= b < c.k :: slots[b] == 16 - c.k + b
    ensures cleared == Value(Window(c, ring, t)[..16 - c.k])
  {
    var w0 := ReadCodeword(c, ring, t);
    var own := 0;
    ghost var win := Window(c, ring, t);
    ghost var field := win[16 - c.k..];
    for b := 0 to c.k
      invariant own == Pow2(16 - c.k) * Value(field[..b])
    {
      var j := slots[b];
      BitValue(win, j);
      SlotSum(c.k, field, b);
      own := own + BitAt(w0, j) * Pow2(j);
    }
    assert field[..c.k] == field && win == win[..16 - c.k] + field;
    ValueConcat(win[..16 - c.k], field);
    cleared := w0 - own;
  }

  /** One candidate: the cleared codeword plus a choice's low k bits at the own slots. */
  method VecCandidateCodeword(c: Code, ghost ring: Ring, ghost t: nat, cleared: nat, slots: seq<nat>, choice: nat)
      returns (w: nat)
    requires c.Valid() && |ring| == c.Total() && t < c.n && cleared == Value(Window(c, ring, t)[..16 - c.k])
    requires |slots| == c.k && forall b | 0 <= b < c.k :: slots[b] == 16 - c.k + b
    ensures w == VecCodeword(c, ring, t, choice)
  {
    var add := 0;
    ghost var field := BitsOf(choice, c.k);
    for b := 0 to c.k
      invariant add == Pow2(16 - c.k) * Value(field[..b])
    {
      SlotSum(c.k, field, b);
      add := add + BitAt(choice, b) * Pow2(slots[b]);
    }
    assert field[..c.k] == field;
    w := cleared + add;
  }

  /** One element of the vectorised encoder: sixteen candidates at once. */
  method EncodeElementVec(c: Code, ring: array<Bit>, t: nat, target: real)
    requires c.Valid() && ring.Length == c.Total() && t < c.n
    modifies ring
    ensures ring[..] == VecEncode(c, old(ring[..]), t, target)
  {
    var slots := FindSlots(c, t);
    var cleared := ClearOwnBits(c, ring[..], t, slots);
    ghost var errs := VecErrs(c, ring[..], t, target);
    var best, bestE := 0, 0.0;
    for choice := 0 to VEC_CHOICES
      invariant ring[..] == old(ring[..])
      invariant choice > 0 ==> IsFirstMin(errs[..choice], best) && bestE == errs[best]
    {
      var w := VecCandidateCodeword(c, ring[..], t, cleared, slots, choice);
      var e := Abs(c.lut(w) - target);
      if choice > 0 {
        FirstMinStep(errs, best, choice);
      }
      if choice == 0 || e < bestE {
        best, bestE := choice, e;
      }
    }
    assert errs[..VEC_CHOICES] == errs;
    FirstMinUnique(errs, best);
    for b := 0 to c.k
      invariant FieldWritten(c, old(ring[..]), ring[..], t, best, b)
    {
      WindowSplit(c, t, slots[b]);
      FieldPos(c, t, b);
      ring[((t + 1) * c.k - 16 + slots[b]) % c.Total()] := BitAt(best, b);
    }
    FieldComplete(c, old(ring[..]), ring[..], t, best);
  }

  // ---- whole tiles ----

  /** Adding a bit above the others is or-ing it in. */
  lemma AddIsOr(bits: seq<Bit>, bit: Bit)
    ensures Or(Value(bits), Pow2(|bits|) * bit) == Value(bits) + bit * Pow2(|bits|)
  {
    ValueBound(bits);
    OrIsSum(Value(bits), bit, |bits|);
  }

  /** Packing a ring into words, bit by bit. */
  method PackWords(ring: seq<Bit>) returns (words: seq<nat>)
    requires |ring| % 32 == 0
    ensures words == Pack(ring)
  {
    words := [];
    for wi := 0 to |ring| / 32
      invariant words == Pack(ring)[..wi]
    {
      ghost var slice := ring[32 * wi..32 * wi + 32];
      var v := 0;
      for b := 0 to 32
        invariant v == Value(slice[..b])
      {
        AddTopBit(slice, b);
        v := v + ring[wi * 32 + b] * Pow2(b);
      }
      assert slice[..32] == slice;
      words := words + [v];
    }
    assert Pack(ring)[..|ring| / 32] == Pack(ring);
  }

  /** The successive rings of a vectorised pass. */
  ghost predicate IsVecPass(c: Code, rings: seq<Ring>, targets: seq<real>, m: nat)
    requires c.Valid() && |targets| == c.n && m <= c.n
  {
    && |rings| == m + 1
    && (forall i | 0 <= i <= m :: |rings[i]| == c.Total())
    && (forall i {:trigger targets[i]} | 0 <= i < m :: rings[i + 1] == VecEncode(c, rings[i], i, targets[i]))
  }

  lemma VecTurnExtends(c: Code, rings: seq<Ring>, targets: seq<real>, m: nat)
    requires c.Valid() && |targets| == c.n && m < c.n && IsVecPass(c, rings, targets, m)
    ensures IsVecPass(c, rings + [VecEncode(c, rings[m], m, targets[m])], targets, m + 1)
  {
    var after := rings + [VecEncode(c, rings[m], m, targets[m])];
    forall i | 0 <= i < m + 1 ensures after[i + 1] == VecEncode(c, after[i], i, targets[i]) {
      if i < m {
        assert rings[i + 1] == VecEncode(c, rings[i], i, targets[i]);
      }
    }
  }

  /** Up to four bits per element a vectorised pass is a greedy pass. */
  lemma VecPassIsPass(c: Code, rings: seq<Ring>, targets: seq<real>)
    requires c.Valid() && |targets| == c.n && c.k <= 4 && IsVecPass(c, rings, targets, c.n)
    ensures IsPass(c, rings, targets, c.n)
  {
    forall i | 0 <= i < c.n ensures rings[i + 1] == Encode(c, rings[i], i, targets[i]) {
      VecRefines(c, rings[i], i, targets[i]);
    }
  }

  /** The vectorised tile encoder: one vectorised pass, which up to four bits per element is
      the scalar encoder's greedy pass. */
  method EncodeTileVec(c: Code, ring: array<Bit>, flat: seq<real>)
    requires c.Valid() && ring.Length == c.Total() && |flat| == c.n
    modifies ring
    ensures exists rings :: IsVecPass(c, rings, flat, c.n) && rings[0] == old(ring[..]) && rings[c.n] == ring[..]
    ensures c.k <= 4 ==> PassTo(c, old(ring[..]), flat, ring[..])
  {
    ghost var rings: seq<Ring> := [ring[..]];
    for t := 0 to c.n
      invariant IsVecPass(c, rings, flat, t) && rings[0] == old(ring[..]) && rings[t] == ring[..]
    {
      EncodeElementVec(c, ring, t, flat[t]);
      VecTurnExtends(c, rings, flat, t);
      rings := rings + [ring[..]];
    }
    if c.k <= 4 {
      VecPassIsPass(c, rings, flat);
    }
  }

  /** The round-trip script's tile encoder: one greedy pass from zeros, then packing. */
  method EncodeTile(c: Code, flat: seq<real>) returns (words: seq<nat>, ring: array<Bit>)
    requires c.Valid() && |flat| == c.n && c.Total() % 32 == 0
    ensures fresh(ring) && PassTo(c, Zeros(c.Total()), flat, ring[..]) && words == Pack(ring[..])
  {
    ring := new Bit[c.Total()](_ => 0);
    assert ring[..] == Zeros(c.Total());
    ghost var rings: seq<Ring> := [ring[..]];
    for t := 0 to c.n
      invariant IsPass(c, rings, flat, t) && rings[0] == Zeros(c.Total()) && rings[t] == ring[..]
    {
      EncodeElementInPlace(c, ring, t, flat[t]);
      TurnExtends(c, rings, flat, t);
      rings := rings + [ring[..]];
    }
    words := PackWords(ring[..]);
  }

  /** One pass of the codec's encoder over the whole tile. */
  method EncodePass(c: Code, ring: array<Bit>, flat: seq<real>)
    requires c.Valid() && ring.Length == c.Total() && |flat| == c.n
    modifies ring
    ensures PassTo(c, old(ring[..]), flat, ring[..])
  {
    ghost var rings: seq<Ring> := [ring[..]];
    for t := 0 to c.n
      invariant IsPass(c, rings, flat, t) && rings[0] == old(ring[..]) && rings[t] == ring[..]
    {
      var err := EncodeElement(c, ring, t, flat[t]);
      TurnExtends(c, rings, flat, t);
      rings := rings + [ring[..]];
    }
  }

  /** The codec's tile encoder: a greedy pass and `refine` more over the same ring. */
  method TileEncode(c: Code, flat: seq<real>, refine: nat) returns (words: seq<nat>, ring: array<Bit>)
    requires c.Valid() && |flat| == c.n && c.Total() % 32 == 0
    ensures fresh(ring) && PassesTo(c, Zeros(c.Total()), flat, refine + 1, ring[..]) && words == Pack(ring[..])
  {
    ring := new Bit[c.Total()](_ => 0);
    assert ring[..] == Zeros(c.Total());
    for p := 0 to refine + 1
      invariant PassesTo(c, Zeros(c.Total()), flat, p, ring[..])
    {
      ghost var was := ring[..];
      EncodePass(c, ring, flat);
      assert PassesTo(c, Zeros(c.Total()), flat, p, was);
    }
    words := PackWords(ring[..]);
  }

  /** Whatever the number of passes, an element whose window does not wrap decodes from the
      packed words to a value that no other choice of its own field would improve. */
  lemma EncodedTileDecodes(c: Code, targets: seq<real>, p: nat, ring: Ring, t: nat, choice: nat)
    requires c.Valid() && |targets| == c.n && c.Total() % 32 == 0 && t < c.n && (t + 1) * c.k >= 16
    requires |ring| == c.Total() && PassesTo(c, Zeros(c.Total()), targets, p + 1, ring)
    ensures Abs(TileDecode(c, Pack(ring), t) - targets[t]) <= Err(c, ring, t, targets[t], choice)
  {
    var mid :| PassesTo(c, Zeros(c.Total()), targets, p, mid) && PassTo(c, mid, targets, ring);
    var rings :| IsPass(c, rings, targets, c.n) && rings[0] == mid && rings[c.n] == ring;
    DecodeGivesChosenValue(c, rings, targets, t, choice);
  }
}
