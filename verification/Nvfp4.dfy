/** The number formats of the compact KV record, over exact reals: E2M1 codes, E4M3 scales,
    and how far a dequantised value can be from the original. */
module Nvfp4 {
  import opened Reals

  function Clamp(x: real, bound: real): real { if x < -bound then -bound else if x > bound then bound else x }

  // ---- E2M1 ----

  const GRID: seq<real> := [0.0, 0.5, 1.0, 1.5, 2.0, 3.0, 4.0, 6.0]

  function Grid(i: nat): real
    requires i < 8
  {
    GRID[i]
  }

  /** Midpoint between adjacent grid points. */
  function Mid(i: nat): real
    requires i < 7
  {
    (Grid(i) + Grid(i + 1)) / 2.0
  }

  /** How many of the first n midpoints lie strictly below a magnitude. */
  function Bucket(mag: real, n: nat): (i: nat)
    requires n <= 7
    ensures i <= n
  {
    if n == 0 then 0 else Bucket(mag, n - 1) + if Mid(n - 1) < mag then 1 else 0
  }

  /** Sign in bit 3, grid index below; a zero index always gives code 0. */
  function E2M1Encode(x: real): (code: nat)
    ensures code < 16
  {
    var idx := Bucket(Abs(x), |GRID| - 1);
    if idx == 0 then 0 else if x < 0.0 then idx + 8 else idx
  }

  function E2M1Decode(code: nat): real
    requires code < 16
  {
    if code >= 8 then -Grid(code % 8) else Grid(code)
  }

  /** The fused kernel's coder: seven comparisons. */
  function KernelCode(q: real): nat {
    var a := Abs(q);
    var idx := (if a > 0.25 then 1 else 0) + (if a > 0.75 then 1 else 0) + (if a > 1.25 then 1 else 0) +
               (if a > 1.75 then 1 else 0) + (if a > 2.5 then 1 else 0) + (if a > 3.5 then 1 else 0) +
               (if a > 5.0 then 1 else 0);
    if idx == 0 then 0 else idx + if q < 0.0 then 8 else 0
  }

  lemma BucketSteps(mag: real)
    ensures Bucket(mag, 7) ==
            (if mag > 0.25 then 1 else 0) + (if mag > 0.75 then 1 else 0) + (if mag > 1.25 then 1 else 0) +
            (if mag > 1.75 then 1 else 0) + (if mag > 2.5 then 1 else 0) + (if mag > 3.5 then 1 else 0) +
            (if mag > 5.0 then 1 else 0)
  {
    assert Mid(0) == 0.25 && Mid(1) == 0.75 && Mid(2) == 1.25 && Mid(3) == 1.75;
    assert Mid(4) == 2.5 && Mid(5) == 3.5 && Mid(6) == 5.0;
    assert Bucket(mag, 2) == Bucket(mag, 1) + if mag > 0.75 then 1 else 0;
    assert Bucket(mag, 4) == Bucket(mag, 3) + if mag > 1.75 then 1 else 0;
    assert Bucket(mag, 6) == Bucket(mag, 5) + if mag > 3.5 then 1 else 0;
  }

  /** The kernel's coder is the reference coder, on every input. */
  lemma KernelCodeIsReference(q: real)
    ensures KernelCode(q) == E2M1Encode(q)
  {
    BucketSteps(Abs(q));
  }

  /** The E2M1 code is a nearest grid point of either sign, ties going to the smaller
      magnitude; code 8 (negative zero) is never produced. */
  lemma E2M1Nearest(x: real, code: nat)
    requires code < 16
    ensures E2M1Encode(x) != 8
    ensures Abs(E2M1Decode(E2M1Encode(x)) - x) <= Abs(E2M1Decode(code) - x)
    ensures Abs(E2M1Decode(E2M1Encode(x)) - x) == Abs(E2M1Decode(code) - x) ==>
              Abs(E2M1Decode(E2M1Encode(x))) <= Abs(E2M1Decode(code))
  {
    BucketSteps(Abs(x));
  }

  /** Inside the clamped range the code is within one unit. */
  lemma E2M1Within(q: real)
    requires Abs(q) <= 6.0
    ensures Abs(E2M1Decode(E2M1Encode(q)) - q) <= 1.0
  {
    BucketSteps(Abs(q));
  }

  // ---- E4M3 ----

  /** 2^(e - 10), the spacing of the codes with exponent field e. */
  function Spacing(e: nat): (s: real)
    ensures s > 0.0
  {
    if e == 0 then 1.0 / 1024.0 else 2.0 * Spacing(e - 1)
  }

  /** m * s, by repeated addition. */
  function Times(m: nat, s: real): (p: real)
    requires s >= 0.0
    ensures p >= 0.0
    decreases m
  {
    if m == 0 then 0.0 else Times(m - 1, s) + s
  }

  /** The value of a non-negative E4M3 code: exponent in the high bits, three mantissa bits;
      code 126 is the largest finite one. */
  function E4M3(c: nat): (v: real)
    requires c <= 126
    ensures v >= 0.0
  {
    if c < 8 then Times(c, Spacing(1)) else Times(8 + c % 8, Spacing(c / 8))
  }

  /** A rounding of non-negative reals to a nearest code, however it breaks ties. */
  ghost predicate RoundsToNearest(round: real -> nat) {
    forall x | 0.0 <= x <= 448.0 :: round(x) <= 126 && forall d | 0 <= d <= 126 ::
        Abs(E4M3(round(x)) - x) <= Abs(E4M3(d) - x)
  }

  /** The first nearest among the first n + 1 codes. */
  function Nearest(x: real, n: nat): (c: nat)
    requires n <= 126
    ensures c <= n
  {
    if n == 0 then 0
    else
      var c := Nearest(x, n - 1);
      if Abs(E4M3(n) - x) < Abs(E4M3(c) - x) then n else c
  }

  lemma {:induction false} NearestIs(x: real, n: nat, d: nat)
    requires d <= n <= 126
    ensures Abs(E4M3(Nearest(x, n)) - x) <= Abs(E4M3(d) - x)
  {
    if d < n {
      NearestIs(x, n - 1, d);
    }
  }

  function ToNearest(x: real): (c: nat)
    ensures c <= 126
  {
    Nearest(x, 126)
  }

  /** Such a rounding exists. */
  lemma RoundingExists()
    ensures RoundsToNearest(ToNearest)
  {
    forall x | 0.0 <= x <= 448.0
      ensures ToNearest(x) <= 126 && forall d | 0 <= d <= 126 :: Abs(E4M3(ToNearest(x)) - x) <= Abs(E4M3(d) - x)
    {
      forall d | 0 <= d <= 126 ensures Abs(E4M3(ToNearest(x)) - x) <= Abs(E4M3(d) - x) {
        NearestIs(x, 126, d);
      }
    }
  }

  lemma {:induction false} TimesMono(m: nat, s: real)
    requires s >= 0.0 && m >= 8
    ensures Times(m, s) >= Times(8, s)
  {
    if m > 8 {
      TimesMono(m - 1, s);
    }
  }

  lemma TimesEight(s: real)
    requires s >= 0.0
    ensures Times(8, s) == 8.0 * s && Times(16, s) == Times(8, 2.0 * s)
  {
    assert Times(3, s) == 3.0 * s && Times(3, 2.0 * s) == 6.0 * s;
    assert Times(6, s) == 6.0 * s && Times(6, 2.0 * s) == 12.0 * s;
    assert Times(8, s) == 8.0 * s && Times(8, 2.0 * s) == 16.0 * s;
    assert Times(11, s) == 11.0 * s;
    assert Times(14, s) == 14.0 * s;
  }

  lemma NormalCodeStep(e: nat, m: nat)
    requires m < 8
    ensures (if m < 7 then Times(9 + m, Spacing(e)) else Times(8, Spacing(e + 1))) - Times(8 + m, Spacing(e)) ==
            Spacing(e)
    ensures Times(8 + m, Spacing(e)) >= 8.0 * Spacing(e)
  {
    TimesMono(8 + m, Spacing(e));
    TimesEight(Spacing(e));
    assert Spacing(e + 1) == 2.0 * Spacing(e);
  }

  lemma NextField(c: nat)
    ensures if c % 8 < 7 then (c + 1) / 8 == c / 8 && (c + 1) % 8 == c % 8 + 1
            else (c + 1) / 8 == c / 8 + 1 && (c + 1) % 8 == 0
  {
  }

  /** Adjacent codes are one spacing apart, and a normal code is at least eight of them. */
  lemma CodeStep(c: nat)
    requires c < 126
    ensures E4M3(c + 1) - E4M3(c) == Spacing(if c < 8 then 1 else c / 8)
    ensures 8 <= c ==> E4M3(c) >= 8.0 * Spacing(c / 8)
  {
    if c >= 8 {
      NormalStep(c, c / 8, c % 8);
    } else {
      SubnormalStep(c);
    }
  }

  lemma NormalStep(c: nat, e: nat, m: nat)
    requires 8 <= c < 126 && e == c / 8 && m == c % 8
    ensures E4M3(c + 1) - E4M3(c) == Spacing(e) && E4M3(c) >= 8.0 * Spacing(e)
  {
    NormalCodeStep(e, m);
    NextField(c);
  }

  lemma SubnormalStep(c: nat)
    requires c < 8
    ensures E4M3(c + 1) - E4M3(c) == Spacing(1)
  {
  }

  lemma CodeEnds()
    ensures E4M3(0) == 0.0 && E4M3(1) == 1.0 / 512.0 && E4M3(8) == 1.0 / 64.0 && E4M3(126) == 448.0
  {
    assert Spacing(1) == 1.0 / 512.0;
    assert Spacing(5) == 1.0 / 32.0 by { assert Spacing(3) == 1.0 / 128.0; }
    assert Spacing(10) == 1.0 by { assert Spacing(7) == 1.0 / 8.0; }
    assert Spacing(15) == 32.0 by { assert Spacing(12) == 4.0; }
    TimesEight(Spacing(1));
    TimesEight(32.0);
    assert Times(14, 32.0) == 448.0 by { assert Times(11, 32.0) == 352.0; }
  }

  /** Adjacent codes between lo and hi that bracket a value. */
  lemma Bracket(x: real, lo: nat, hi: nat) returns (c: nat)
    requires lo < hi <= 126 && E4M3(lo) <= x <= E4M3(hi)
    ensures lo <= c < hi && E4M3(c) <= x <= E4M3(c + 1)
  {
    c := lo;
    while c < hi - 1 && E4M3(c + 1) <= x
      invariant lo <= c < hi && E4M3(c) <= x
    {
      c := c + 1;
    }
  }

  /** A nearest code is within half the spacing of the codes around the value. */
  lemma WithinHalfStep(round: real -> nat, x: real, c: nat)
    requires RoundsToNearest(round) && 0.0 <= x <= 448.0 && c < 126 && E4M3(c) <= x <= E4M3(c + 1)
    ensures round(x) <= 126
    ensures 2.0 * Abs(E4M3(round(x)) - x) <= E4M3(c + 1) - E4M3(c)
  {
    var err := Abs(E4M3(round(x)) - x);
    assert err <= Abs(E4M3(c) - x) && err <= Abs(E4M3(c + 1) - x);
  }

  /** Rounding error of E4M3 in the normal range: a sixteenth. */
  lemma E4M3NormalError(round: real -> nat, x: real)
    requires RoundsToNearest(round) && 1.0 / 64.0 <= x <= 448.0
    ensures round(x) <= 126 && Abs(E4M3(round(x)) - x) <= x / 16.0
  {
    CodeEnds();
    var c := Bracket(x, 8, 126);
    CodeStep(c);
    WithinHalfStep(round, x, c);
  }

  /** Below it: half the subnormal spacing. */
  lemma E4M3SubnormalError(round: real -> nat, x: real)
    requires RoundsToNearest(round) && 0.0 <= x <= 1.0 / 64.0
    ensures round(x) <= 126 && Abs(E4M3(round(x)) - x) <= 1.0 / 1024.0
  {
    CodeEnds();
    var c := Bracket(x, 0, 8);
    CodeStep(c);
    WithinHalfStep(round, x, c);
  }

  /** A scale rounds to zero below half the least code and only up to there. */
  lemma E4M3Vanishes(round: real -> nat, x: real)
    requires RoundsToNearest(round) && 0.0 <= x <= 448.0
    ensures x < 1.0 / 1024.0 ==> round(x) == 0
    ensures x > 1.0 / 1024.0 ==> round(x) <= 126 && E4M3(round(x)) > 0.0
  {
    CodeEnds();
    var c := round(x);
    assert Abs(E4M3(c) - x) <= Abs(E4M3(0) - x);
    assert Abs(E4M3(c) - x) <= Abs(E4M3(1) - x);
    if c > 0 {
      LeastCode(c);
    }
  }

  lemma {:induction false} LeastCode(c: nat)
    requires 1 <= c <= 126
    ensures E4M3(c) >= 1.0 / 512.0
  {
    CodeEnds();
    if c > 1 {
      LeastCode(c - 1);
      CodeStep(c - 1);
    }
  }

  // ---- a NoPE group ----

  /** The largest magnitude among the first n entries. */
  function MaxAbsOf(xs: seq<real>, n: nat): (m: real)
    requires n <= |xs|
    ensures m >= 0.0
  {
    if n == 0 then 0.0 else Max(Abs(xs[n - 1]), MaxAbsOf(xs, n - 1))
  }

  /** The largest magnitude of a group. */
  function MaxAbs(xs: seq<real>): (m: real)
    ensures m >= 0.0
  {
    MaxAbsOf(xs, |xs|)
  }

  lemma {:induction false} MaxAbsOfBounds(xs: seq<real>, n: nat, i: nat)
    requires i < n <= |xs|
    ensures Abs(xs[i]) <= MaxAbsOf(xs, n)
  {
    if i < n - 1 {
      MaxAbsOfBounds(xs, n - 1, i);
    }
  }

  lemma {:induction false} MaxAbsOfLeast(xs: seq<real>, n: nat, bound: real)
    requires n <= |xs| && bound >= 0.0
    requires forall i | 0 <= i < n :: Abs(xs[i]) <= bound
    ensures MaxAbsOf(xs, n) <= bound
  {
    if n > 0 {
      MaxAbsOfLeast(xs, n - 1, bound);
    }
  }

  /** It bounds every entry. */
  lemma MaxAbsBounds(xs: seq<real>, x: real)
    requires x in xs
    ensures Abs(x) <= MaxAbs(xs)
  {
    var i :| 0 <= i < |xs| && xs[i] == x;
    MaxAbsOfBounds(xs, |xs|, i);
  }

  /** And it is the least bound. */
  lemma MaxAbsLeast(xs: seq<real>, bound: real)
    requires bound >= 0.0 && forall x | x in xs :: Abs(x) <= bound
    ensures MaxAbs(xs) <= bound
  {
    MaxAbsOfLeast(xs, |xs|, bound);
  }

  /** A scale of zero is replaced by a tiny one before anything is divided by it. */
  function NonZero(x: real): (s: real)
    ensures s > 0.0
  {
    if x > 0.0 then x else 0.00000001
  }

  /** The group scale before rounding. */
  function GroupScale(g: seq<real>): (s: real)
    ensures s > 0.0
  {
    NonZero(MaxAbs(g) / 6.0)
  }

  /** The scale the codes are computed with: the rounded one, never zero. */
  function UsedScale(code: nat): (s: real)
    requires code <= 126
    ensures s > 0.0
  {
    NonZero(E4M3(code))
  }

  /** The code of one entry and what the reader makes of it. */
  function EntryCode(x: real, scaleCode: nat): (c: nat)
    requires scaleCode <= 126
    ensures c < 16
  {
    QuotientCode(x / UsedScale(scaleCode))
  }

  function QuotientCode(y: real): (c: nat)
    ensures c < 16
  {
    E2M1Encode(Clamp(y, 6.0))
  }

  /** A normal-range scale moves by at most a sixteenth when it is rounded. */
  lemma ScaleBound(round: real -> nat, m: real, code: nat)
    requires RoundsToNearest(round) && 1.0 / 64.0 <= m / 6.0 <= 448.0 && code == round(NonZero(m / 6.0))
    ensures code <= 126 && 15.0 * m / 96.0 <= E4M3(code) <= 17.0 * m / 96.0
  {
    E4M3NormalError(round, m / 6.0);
  }

  lemma Grows(y: real, bound: real, s: real)
    requires s > 0.0
    ensures y > bound ==> y * s > bound * s
  {
    if y > bound {
      assert (y - bound) * s > 0.0;
    }
  }

  /** Clamped quotients stay within 0.4 of the true ones. */
  lemma QuotientError(y: real, m: real, s: real)
    requires 0.0 < s && Abs(y * s) <= m && 15.0 * m / 96.0 <= s
    ensures Abs(Clamp(y, 6.0) - y) <= 0.4
  {
    Grows(y, 6.4, s);
    Grows(-y, 6.4, s);
    assert (-y) * s == -(y * s);
  }

  lemma BoundScaled(a: real, b: real, s: real)
    requires s >= 0.0 && Abs(a) <= b
    ensures Abs(a * s) <= b * s
  {
    assert (b - a) * s >= 0.0 && (b + a) * s >= 0.0;
  }

  /** A code within one unit of the quotient dequantises within one scale of the entry. */
  lemma ScaledUnit(v: real, y: real, s: real)
    requires Abs(v - y) <= 1.0 && s > 0.0
    ensures Abs(v * s - y * s) <= s
  {
    BoundScaled(v - y, 1.0, s);
    assert (v - y) * s == v * s - y * s;
  }

  lemma QuotientUnit(y: real, m: real, s: real)
    requires 0.0 < s && Abs(y * s) <= m && 15.0 * m / 96.0 <= s
    ensures Abs(E2M1Decode(QuotientCode(y)) - y) <= 1.0
  {
    QuotientError(y, m, s);
    WithinOneUnit(y, Clamp(y, 6.0));
  }

  lemma DivideBack(x: real, s: real)
    requires s > 0.0
    ensures x / s * s == x
  {
  }

  lemma EntryError(x: real, y: real, m: real, s: real, c: nat, v: real)
    requires 0.0 < s && y * s == x && Abs(x) <= m && 15.0 * m / 96.0 <= s
    requires c == QuotientCode(y) && v == E2M1Decode(c)
    ensures Abs(v * s - x) <= s
  {
    QuotientUnit(y, m, s);
    ScaledUnit(v, y, s);
  }

  lemma UsedScaleIs(code: nat, s: real)
    requires code <= 126 && s == E4M3(code) && 0.0 < s
    ensures UsedScale(code) == s
  {
  }

  lemma EntryCodeIs(x: real, code: nat, s: real, y: real)
    requires code <= 126 && UsedScale(code) == s && y == x / s
    ensures EntryCode(x, code) == QuotientCode(y)
  {
  }

  lemma ScaledEntry(x: real, m: real, code: nat, s: real, c: nat, v: real)
    requires code <= 126 && s == E4M3(code) && 0.0 < s && Abs(x) <= m && 15.0 * m / 96.0 <= s
    requires c == EntryCode(x, code) && v == E2M1Decode(c)
    ensures Abs(v * s - x) <= s
  {
    var y := x / s;
    UsedScaleIs(code, s);
    EntryCodeIs(x, code, s, y);
    DivideBack(x, s);
    EntryError(x, y, m, s, c, v);
  }

  lemma GroupEntryError(round: real -> nat, x: real, m: real, code: nat, s: real, c: nat, v: real)
    requires RoundsToNearest(round) && 1.0 / 64.0 <= m / 6.0 <= 448.0 && Abs(x) <= m
    requires code <= 126 && code == round(NonZero(m / 6.0)) && s == E4M3(code)
    requires c == EntryCode(x, code) && v == E2M1Decode(c)
    ensures Abs(v * s - x) <= s <= 17.0 * m / 96.0
  {
    ScaleBound(round, m, code);
    ScaledEntry(x, m, code, s, c, v);
  }

  /** Quantisation error: for any group whose scale is in the normal range, the value v that
      the code stored for an entry stands for, times the stored scale s, is within s of the
      entry, and s is at most 17/96 of the group's largest magnitude. */
  lemma GroupError(round: real -> nat, g: seq<real>, i: nat, code: nat, s: real, c: nat, v: real)
    requires RoundsToNearest(round) && 1.0 / 64.0 <= MaxAbs(g) / 6.0 <= 448.0 && i < |g|
    requires code <= 126 && code == round(GroupScale(g)) && s == E4M3(code)
    requires c == EntryCode(g[i], code) && v == E2M1Decode(c)
    ensures Abs(v * s - g[i]) <= s <= 17.0 * MaxAbs(g) / 96.0
  {
    MaxAbsBounds(g, g[i]);
    GroupEntryError(round, g[i], MaxAbs(g), code, s, c, v);
  }

  /** The outer latent scale, divided out by the writer and multiplied back by the reader,
      scales the error bound. */
  lemma LatentError(v: real, kv: real, latent: real, s: real)
    requires latent > 0.0 && Abs(v - kv / latent) <= s
    ensures Abs(v * latent - kv) <= s * latent
  {
    DivideBack(kv, latent);
    BoundScaled(v - kv / latent, s, latent);
    assert (v - kv / latent) * latent == v * latent - kv / latent * latent;
  }

  /** Clamping before coding does not hurt: the code is still within one unit of the quotient. */
  lemma WithinOneUnit(y: real, q: real)
    requires q == Clamp(y, 6.0) && Abs(q - y) <= 0.4
    ensures Abs(E2M1Decode(E2M1Encode(q)) - y) <= 1.0
  {
    BucketSteps(Abs(q));
  }

  // ---- what is stored is the best there is ----

  /** The code of a quotient stands for a grid point of either sign nearest to it, clamped or
      not. */
  lemma QuotientNearest(y: real, code: nat)
    requires code < 16
    ensures Abs(E2M1Decode(QuotientCode(y)) - y) <= Abs(E2M1Decode(code) - y)
  {
    OverClamp(y);
    if -6.0 <= y <= 6.0 {
      E2M1Nearest(y, code);
    }
  }

  lemma ErrorIs(v: real, y: real, s: real, x: real)
    requires s > 0.0 && y * s == x
    ensures Abs(v * s - x) == Abs(v - y) * s
  {
    Distributes(v, y, s);
    AbsScaled(v - y, s, Abs(v - y), v * s - x);
  }

  lemma LessScaled(a: real, b: real, s: real)
    requires a <= b && s > 0.0
    ensures a * s <= b * s
  {
    assert (b - a) * s >= 0.0;
  }

  lemma NearestScaled(v: real, u: real, y: real, s: real, x: real)
    requires s > 0.0 && y * s == x && Abs(v - y) <= Abs(u - y)
    ensures Abs(v * s - x) <= Abs(u * s - x)
  {
    ErrorIs(v, y, s, x);
    ErrorIs(u, y, s, x);
    LessScaled(Abs(v - y), Abs(u - y), s);
  }

  /** The stored code is the code of the entry's quotient by a scale that did not vanish. */
  lemma QuotientOf(x: real, scale: nat, s: real, c: nat, y: real)
    requires scale <= 126 && s == E4M3(scale) && s > 0.0 && c == EntryCode(x, scale) && y == x / s
    ensures c == QuotientCode(y) && y * s == x
  {
    UsedScaleIs(scale, s);
    EntryCodeIs(x, scale, s, y);
    DivideBack(x, s);
  }

  /** No code would bring an entry x back closer than the stored code c of its quotient y by the
      scale s; an entry beyond the clamp gets the largest code of its sign. */
  lemma EntryNearest(x: real, y: real, s: real, c: nat, v: real, other: nat, u: real)
    requires s > 0.0 && y * s == x && other < 16
    requires c == QuotientCode(y) && v == E2M1Decode(c) && u == E2M1Decode(other)
    ensures Abs(v * s - x) <= Abs(u * s - x)
    ensures x > 6.0 * s ==> v == 6.0
    ensures x < -6.0 * s ==> v == -6.0
  {
    QuotientNearest(y, other);
    NearestScaled(v, u, y, s, x);
    BeyondClamp(x, y, s);
    OverClamp(y);
  }

  lemma BeyondClamp(x: real, y: real, s: real)
    requires s > 0.0 && y * s == x
    ensures x > 6.0 * s ==> y > 6.0
    ensures x < -6.0 * s ==> y < -6.0
  {
    Grows(6.0, y, s);
    Grows(y, -6.0, s);
  }

  /** Nor would any other scale code be closer to the group's scale. */
  lemma ScaleNearest(round: real -> nat, m: real, other: nat)
    requires RoundsToNearest(round) && 0.0 <= m / 6.0 <= 448.0 && other <= 126
    ensures round(NonZero(m / 6.0)) <= 126
    ensures Abs(E4M3(round(NonZero(m / 6.0))) - NonZero(m / 6.0)) <= Abs(E4M3(other) - NonZero(m / 6.0))
    ensures m > 0.0 ==> NonZero(m / 6.0) == m / 6.0
  {
  }

  // ---- scales below the normal range ----

  lemma OverClamp(y: real)
    ensures y > 6.0 ==> E2M1Decode(QuotientCode(y)) == 6.0
    ensures y < -6.0 ==> E2M1Decode(QuotientCode(y)) == -6.0
  {
    BucketSteps(6.0);
  }

  /** An entry at most 6/1024 beyond the clamp: within one scale, or that far off. */
  lemma ClampedEntry(x: real, y: real, s: real, c: nat, v: real)
    requires 0.0 < s && y * s == x && Abs(x) <= 6.0 * s + 6.0 / 1024.0 && c == QuotientCode(y) && v == E2M1Decode(c)
    ensures Abs(v * s - x) <= Max(s, 6.0 / 1024.0)
  {
    Grows(y, 6.0, s);
    Grows(-y, 6.0, s);
    assert (-y) * s == -(y * s);
    OverClamp(y);
    if -6.0 <= y <= 6.0 {
      E2M1Within(y);
      ScaledUnit(v, y, s);
    }
  }

  lemma SmallEntry(x: real, code: nat, s: real, c: nat, v: real)
    requires code <= 126 && s == E4M3(code) && 0.0 < s && Abs(x) <= 6.0 * s + 6.0 / 1024.0
    requires c == EntryCode(x, code) && v == E2M1Decode(c)
    ensures Abs(v * s - x) <= Max(s, 6.0 / 1024.0)
  {
    var y := x / s;
    UsedScaleIs(code, s);
    EntryCodeIs(x, code, s, y);
    DivideBack(x, s);
    ClampedEntry(x, y, s, c, v);
  }

  /** A scale below the normal range moves by at most half the subnormal spacing. */
  lemma SmallScale(round: real -> nat, m: real, code: nat)
    requires RoundsToNearest(round) && 0.0 <= m / 6.0 <= 1.0 / 64.0 && code == round(NonZero(m / 6.0))
    ensures code <= 126 && m / 6.0 - 1.0 / 1024.0 <= E4M3(code) <= m / 6.0 + 1.0 / 1024.0
  {
    E4M3SubnormalError(round, NonZero(m / 6.0));
    if m == 0.0 {
      E4M3Vanishes(round, NonZero(m / 6.0));
      CodeEnds();
    }
  }

  /** For any group whose scale is below the normal range, down to a zero scale: every entry is
      within one stored scale s, or within 6/1024 where that is larger. */
  lemma SmallGroupError(round: real -> nat, g: seq<real>, i: nat, code: nat, s: real, c: nat, v: real)
    requires RoundsToNearest(round) && MaxAbs(g) / 6.0 <= 1.0 / 64.0 && i < |g|
    requires code <= 126 && code == round(GroupScale(g)) && s == E4M3(code)
    requires c == EntryCode(g[i], code) && v == E2M1Decode(c)
    ensures Abs(v * s - g[i]) <= Max(s, 6.0 / 1024.0)
    ensures MaxAbs(g) / 6.0 - 1.0 / 1024.0 <= s <= MaxAbs(g) / 6.0 + 1.0 / 1024.0
  {
    MaxAbsBounds(g, g[i]);
    SmallScale(round, MaxAbs(g), code);
    if s > 0.0 {
      SmallEntry(g[i], code, s, c, v);
    } else {
      ProductWithZero(v, s);
    }
  }

  lemma ProductWithZero(v: real, s: real)
    requires s == 0.0
    ensures v * s == 0.0
  {
  }

  // ---- RoPE values ----

  /** Rounding error of E4M3 over the whole finite range. */
  lemma E4M3Error(round: real -> nat, x: real)
    requires RoundsToNearest(round) && 0.0 <= x <= 448.0
    ensures round(x) <= 126 && Abs(E4M3(round(x)) - x) <= Max(x / 16.0, 1.0 / 1024.0)
  {
    if x >= 1.0 / 64.0 {
      E4M3NormalError(round, x);
    } else {
      E4M3SubnormalError(round, x);
    }
  }

  /** The error bound survives multiplying the divisor back. */
  lemma ErrorScaled(v: real, y: real, rs: real, r: real)
    requires rs > 0.0 && y * rs == r && Abs(v - y) <= Max(Abs(y) / 16.0, 1.0 / 1024.0)
    ensures Abs(v * rs - r) <= Max(Abs(r) / 16.0, rs / 1024.0)
  {
    Distributes(v, y, rs);
    AbsScaled(y, rs, Abs(y), r);
    ErrorTimes(v - y, Abs(y), rs, v * rs - r, Abs(r));
  }

  lemma ErrorTimes(e: real, a: real, rs: real, eTimes: real, aTimes: real)
    requires rs > 0.0 && Abs(e) <= Max(a / 16.0, 1.0 / 1024.0) && e * rs == eTimes && a * rs == aTimes
    ensures Abs(eTimes) <= Max(aTimes / 16.0, rs / 1024.0)
  {
    BoundScaled(e, Max(a / 16.0, 1.0 / 1024.0), rs);
    MaxScaled(a, rs);
  }

  lemma Distributes(v: real, y: real, rs: real)
    ensures (v - y) * rs == v * rs - y * rs
  {
  }

  lemma AbsScaled(y: real, rs: real, a: real, p: real)
    requires rs > 0.0 && a == Abs(y) && p == y * rs
    ensures a * rs == Abs(p)
  {
    if y < 0.0 {
      assert -y * rs > 0.0;
    } else {
      assert y * rs >= 0.0;
    }
  }

  lemma MaxScaled(a: real, rs: real)
    requires rs > 0.0
    ensures Max(a / 16.0, 1.0 / 1024.0) * rs <= Max(a * rs / 16.0, rs / 1024.0)
  {
    assert a / 16.0 * rs == a * rs / 16.0;
  }

  /** Entries divided by the row's scale stay in the finite range, so nothing is clamped. */
  lemma RopeQuotient(r: real, m: real, rs: real, y: real)
    requires Abs(r) <= m && rs == NonZero(m / 448.0) && y * rs == r
    ensures Abs(y) <= 448.0
  {
    if m == 0.0 {
      assert r == 0.0;
      ZeroFactor(y, rs);
    } else {
      Grows(y, 448.0, rs);
      Grows(-y, 448.0, rs);
      assert (-y) * rs == -(y * rs);
    }
  }

  lemma ZeroFactor(y: real, rs: real)
    requires rs > 0.0 && y * rs == 0.0
    ensures y == 0.0
  {
  }
}
