/** Distributed top-k: each rank selects from its interleaved shard of the score row, the
    candidates are gathered, and the selection from them is exact for the whole row. */
module DcpTopK {
  import opened ModArith
  import opened Prelude

  // ---- top-k sets under any strict weak order ----

  ghost predicate StrictWeakOrder<T(!new)>(beats: (T, T) -> bool) {
    && (forall a :: !beats(a, a))
    && (forall a, b, c :: beats(a, b) && beats(b, c) ==> beats(a, c))
    && (forall a, b, c :: beats(a, c) ==> beats(a, b) || beats(b, c))
  }

  /** T holds as many of S as k allows, and nothing left out beats anything chosen. */
  ghost predicate IsTopK<T(!new)>(beats: (T, T) -> bool, s: set<T>, k: nat, t: set<T>) {
    && t <= s && |t| == Min(k, |s|)
    && forall x, y | x in s - t && y in t :: !beats(x, y)
  }

  ghost function Union<T(!new)>(sets: seq<set<T>>): set<T> {
    set i, x | 0 <= i < |sets| && x in sets[i] :: x
  }

  /** The locals together hold at least min(k, |row|) candidates. */
  lemma EnoughCandidates<T(!new)>(beats: (T, T) -> bool, shards: seq<set<T>>, locals: seq<set<T>>, k: nat)
    requires |shards| == |locals| && forall i | 0 <= i < |shards| :: IsTopK(beats, shards[i], k, locals[i])
    ensures Union(locals) <= Union(shards) && Min(k, |Union(locals)|) == Min(k, |Union(shards)|)
  {
    forall x | x in Union(locals) ensures x in Union(shards) {
      var i :| 0 <= i < |locals| && x in locals[i];
      assert x in shards[i];
    }
    SubsetSize(Union(locals), Union(shards));
    if full :| 0 <= full < |locals| && |locals[full]| == k {
      SubsetSize(locals[full], Union(locals));
    } else {
      forall x | x in Union(shards) ensures x in Union(locals) {
        var i :| 0 <= i < |shards| && x in shards[i];
        SubsetSize(locals[i], shards[i]);
      }
      assert Union(locals) == Union(shards);
    }
  }

  /** Distributed top-k exactness: whatever the shards, however ties are broken locally, and
      including shards with fewer than k entries, a top-k of the gathered local candidates is
      a top-k of the whole row. */
  lemma MergeExact<T(!new)>(beats: (T, T) -> bool, shards: seq<set<T>>, locals: seq<set<T>>, k: nat, t: set<T>)
    requires StrictWeakOrder(beats)
    requires |shards| == |locals| && forall i | 0 <= i < |shards| :: IsTopK(beats, shards[i], k, locals[i])
    requires IsTopK(beats, Union(locals), k, t)
    ensures IsTopK(beats, Union(shards), k, t)
  {
    EnoughCandidates(beats, shards, locals, k);
    forall x, y | x in Union(shards) - t && y in t ensures !beats(x, y) {
      if x !in Union(locals) && beats(x, y) {
        var i :| 0 <= i < |shards| && x in shards[i];
        CrowdedOut(beats, shards, locals, k, t, i, x, y);
        assert false;
      }
    }
  }

  /** A candidate its own rank dropped cannot beat a selected one: its k local rivals would
      all have been selected before that one. */
  lemma CrowdedOut<T(!new)>(beats: (T, T) -> bool, shards: seq<set<T>>, locals: seq<set<T>>, k: nat, t: set<T>,
                            i: nat, x: T, y: T)
    requires StrictWeakOrder(beats)
    requires |shards| == |locals| && i < |shards| && IsTopK(beats, shards[i], k, locals[i])
    requires IsTopK(beats, Union(locals), k, t) && x in shards[i] && x !in locals[i] && y in t
    ensures !beats(x, y)
  {
    if beats(x, y) {
      SubsetSize(locals[i], shards[i]);
      assert |locals[i]| == k;
      forall z | z in locals[i] ensures z in t {
        assert z in Union(locals);
        assert !beats(x, z);
        assert beats(z, y);
      }
      SubsetSize(locals[i], t);
    }
  }

  /** With a strict total order the top-k is unique, so the merge is exact both ways. */
  lemma MergeExactIff<T(!new)>(beats: (T, T) -> bool, shards: seq<set<T>>, locals: seq<set<T>>, k: nat, t: set<T>)
    requires StrictWeakOrder(beats) && forall a, b :: a != b ==> beats(a, b) || beats(b, a)
    requires |shards| == |locals| && forall i | 0 <= i < |shards| :: IsTopK(beats, shards[i], k, locals[i])
    ensures IsTopK(beats, Union(locals), k, t) <==> IsTopK(beats, Union(shards), k, t)
  {
    if IsTopK(beats, Union(locals), k, t) {
      MergeExact(beats, shards, locals, k, t);
    } else if IsTopK(beats, Union(shards), k, t) {
      var u := TopKExists(beats, Union(locals), k);
      MergeExact(beats, shards, locals, k, u);
      TopKUnique(beats, Union(shards), k, t, u);
      assert false;
    }
  }

  lemma TopKUnique<T(!new)>(beats: (T, T) -> bool, s: set<T>, k: nat, t: set<T>, u: set<T>)
    requires forall a, b :: a != b ==> beats(a, b) || beats(b, a)
    requires IsTopK(beats, s, k, t) && IsTopK(beats, s, k, u)
    ensures t == u
  {
    if y :| y in t && y !in u {
      if x :| x in u && x !in t {
        OneIsShared(beats, s, k, t, u, x, y);
      } else {
        SubsetSize(u, t);
      }
    } else {
      SubsetSize(t, u);
    }
  }

  /** Of two elements of two top-k sets, one is in both. */
  lemma OneIsShared<T(!new)>(beats: (T, T) -> bool, s: set<T>, k: nat, t: set<T>, u: set<T>, x: T, y: T)
    requires forall a, b :: a != b ==> beats(a, b) || beats(b, a)
    requires IsTopK(beats, s, k, t) && IsTopK(beats, s, k, u) && x in u && y in t
    ensures x in t || y in u
  {
    assert x != y ==> beats(x, y) || beats(y, x);
  }

  /** Some element no other beats. */
  lemma {:induction false} BestExists<T(!new)>(beats: (T, T) -> bool, s: set<T>) returns (m: T)
    requires StrictWeakOrder(beats) && s != {}
    ensures m in s && forall x | x in s :: !beats(x, m)
    decreases |s|
  {
    var a :| a in s;
    if s == {a} {
      m := a;
    } else {
      m := BestExists(beats, s - {a});
      if beats(a, m) {
        m := a;
      }
    }
  }

  lemma {:induction false} TopKExists<T(!new)>(beats: (T, T) -> bool, s: set<T>, k: nat) returns (t: set<T>)
    requires StrictWeakOrder(beats)
    ensures IsTopK(beats, s, k, t)
    decreases k
  {
    if k == 0 || s == {} {
      t := {};
    } else {
      var m := BestExists(beats, s);
      t := TopKExists(beats, s - {m}, k - 1);
      t := t + {m};
      forall x, y | x in s - t && y in t ensures !beats(x, y) {
        assert x in s - {m};
      }
    }
  }

  // ---- the interleaved shards ----

  /** Local position `l` of rank `r`, with `w` ranks and groups of `g` tokens. */
  function ToGlobal(l: nat, r: nat, w: nat, g: nat): nat
    requires 0 < w && 0 < g
  {
    l / g * (w * g) + r * g + l % g
  }

  function Owner(t: nat, w: nat, g: nat): (r: nat)
    requires 0 < w && 0 < g
    ensures r < w
  {
    t / g % w
  }

  function ToLocal(t: nat, w: nat, g: nat): nat
    requires 0 < w && 0 < g
  {
    assert w * g > 0 by { MultipleAway(w, g); }
    t / (w * g) * g + t % g
  }

  /** A rank's share of a row of `len` tokens. */
  function LocalLen(len: nat, r: nat, w: nat, g: nat): int
    requires 0 < w && 0 < g
  {
    var base := len / g / w * g;
    var rem := len - base * w - r * g;
    base + if rem < 0 then 0 else if rem > g then g else rem
  }

  /** A token's group-of-ranks, rank and offset. */
  lemma Decompose(t: nat, w: nat, g: nat, q: nat, r: nat, m: nat)
    requires 0 < w && 0 < g && r < w && m < g && t == q * (w * g) + r * g + m
    ensures Owner(t, w, g) == r && ToLocal(t, w, g) == q * g + m
    ensures t / g / w == q
  {
    assert q * (w * g) + r * g + m == (q * w + r) * g + m;
    DivModIs(t, g, q * w + r, m);
    DivModIs(q * w + r, w, q, r);
    RankOffset(r, m, w, g);
    DivModIs(t, w * g, q, r * g + m);
  }

  lemma RankOffset(r: nat, m: nat, w: nat, g: nat)
    requires r < w && m < g
    ensures r * g + m < w * g
  {
    BlockFits(r, w, g);
  }

  lemma Recompose(t: nat, w: nat, g: nat) returns (q: nat, r: nat, m: nat)
    requires 0 < w && 0 < g
    ensures r < w && m < g && t == q * (w * g) + r * g + m
  {
    var x := t / g;
    m, q, r := t % g, x / w, x % w;
    assert t == x * g + m && x == q * w + r;
    assert (q * w + r) * g == q * (w * g) + r * g;
  }

  /** Local positions and global tokens correspond one to one, and the local length formula
      counts exactly the tokens of the row that a rank owns. */
  lemma InterleaveBijection(len: nat, w: nat, g: nat)
    requires 0 < w && 0 < g
    ensures forall l: nat, r: nat | r < w ::
            Owner(ToGlobal(l, r, w, g), w, g) == r && ToLocal(ToGlobal(l, r, w, g), w, g) == l
    ensures forall t: nat :: ToGlobal(ToLocal(t, w, g), Owner(t, w, g), w, g) == t
    ensures forall l: nat, r: nat | r < w :: l < LocalLen(len, r, w, g) <==> ToGlobal(l, r, w, g) < len
  {
    forall l: nat, r: nat | r < w
      ensures Owner(ToGlobal(l, r, w, g), w, g) == r && ToLocal(ToGlobal(l, r, w, g), w, g) == l
      ensures l < LocalLen(len, r, w, g) <==> ToGlobal(l, r, w, g) < len
    {
      GlobalInverse(l, r, w, g);
      ShareCounts(len, l, r, w, g);
    }
    forall t: nat ensures ToGlobal(ToLocal(t, w, g), Owner(t, w, g), w, g) == t {
      LocalInverse(t, w, g);
    }
  }

  lemma GlobalInverse(l: nat, r: nat, w: nat, g: nat)
    requires 0 < w && 0 < g && r < w
    ensures Owner(ToGlobal(l, r, w, g), w, g) == r && ToLocal(ToGlobal(l, r, w, g), w, g) == l
  {
    Decompose(ToGlobal(l, r, w, g), w, g, l / g, r, l % g);
  }

  lemma LocalInverse(t: nat, w: nat, g: nat)
    requires 0 < w && 0 < g
    ensures ToGlobal(ToLocal(t, w, g), Owner(t, w, g), w, g) == t
  {
    var q, r, m := Recompose(t, w, g);
    Decompose(t, w, g, q, r, m);
    DivModIs(q * g + m, g, q, m);
  }

  lemma LocalLenIs(len: nat, r: nat, w: nat, g: nat, big: nat, s: nat, n: nat)
    requires 0 < w && 0 < g && s < w && n < g && len == big * (w * g) + s * g + n
    ensures
      var rem := s * g + n - r * g;
      LocalLen(len, r, w, g) == big * g + if rem < 0 then 0 else if rem > g then g else rem
  {
    Decompose(len, w, g, big, s, n);
    assert big * g * w == big * (w * g);
    LocalLenFrom(len, r, w, g, big * g, big * (w * g), r * g, s * g + n - r * g);
  }

  lemma LocalLenFrom(len: nat, r: nat, w: nat, g: nat, base: nat, before: nat, offset: nat, rem: int)
    requires 0 < w && 0 < g && base == len / g / w * g && before == base * w && offset == r * g
    requires rem == len - before - offset
    ensures LocalLen(len, r, w, g) == base + if rem < 0 then 0 else if rem > g then g else rem
  {
  }

  lemma ShareAt(len: nat, share: int, big: nat, s: nat, n: nat, q: nat, m: nat, r: nat, w: nat, g: nat)
    requires r < w && s < w && n < g && m < g && len == big * (w * g) + s * g + n
    requires
      var rem := s * g + n - r * g;
      share == big * g + if rem < 0 then 0 else if rem > g then g else rem
    ensures q * g + m < share <==> q * (w * g) + r * g + m < len
  {
    var p, rg, sg := w * g, r * g, s * g;
    RankOffset(r, m, w, g);
    RankOffset(s, n, w, g);
    var qg, bigG, qp, bigP := q * g, big * g, q * p, big * p;
    CompareBlocks(q, big, g);
    CompareBlocks(q, big, p);
    ShareCompare(g, p, q, big, qg, bigG, qp, bigP, rg, sg, m, n);
  }

  lemma ToGlobalIs(l: nat, r: nat, w: nat, g: nat, q: nat, m: nat)
    requires 0 < w && 0 < g && q == l / g && m == l % g
    ensures m < g && l == q * g + m && ToGlobal(l, r, w, g) == q * (w * g) + r * g + m
  {
  }

  lemma ShareCounts(len: nat, l: nat, r: nat, w: nat, g: nat)
    requires 0 < w && 0 < g && r < w
    ensures l < LocalLen(len, r, w, g) <==> ToGlobal(l, r, w, g) < len
  {
    var big, s, n := Recompose(len, w, g);
    LocalLenIs(len, r, w, g, big, s, n);
    ToGlobalIs(l, r, w, g, l / g, l % g);
    ShareOf(len, LocalLen(len, r, w, g), l, ToGlobal(l, r, w, g), big, s, n, l / g, l % g, r, w, g);
  }

  lemma ShareOf(len: nat, share: int, l: nat, t: nat, big: nat, s: nat, n: nat, q: nat, m: nat, r: nat, w: nat, g: nat)
    requires r < w && s < w && n < g && m < g && len == big * (w * g) + s * g + n
    requires l == q * g + m && t == q * (w * g) + r * g + m
    requires
      var rem := s * g + n - r * g;
      share == big * g + if rem < 0 then 0 else if rem > g then g else rem
    ensures l < share <==> t < len
  {
    ShareAt(len, share, big, s, n, q, m, r, w, g);
  }

  /** The comparison behind the share formula, in its linear parts. */
  lemma ShareCompare(g: int, p: int, q: int, big: int, qg: int, bigG: int, qp: int, bigP: int,
                     rg: int, sg: int, m: int, n: int)
    requires 0 <= m < g && 0 <= n < g && 0 <= rg && 0 <= sg && rg + m < p && sg + n < p
    requires q < big ==> qg + g <= bigG && qp + p <= bigP
    requires q > big ==> bigG + g <= qg && bigP + p <= qp
    requires q == big ==> qg == bigG && qp == bigP
    ensures
      var rem := sg + n - rg;
      qg + m < bigG + (if rem < 0 then 0 else if rem > g then g else rem) <==> qp + rg + m < bigP + sg + n
  {
  }

  lemma CompareBlocks(q: nat, big: nat, p: nat)
    ensures q < big ==> q * p + p <= big * p
    ensures q > big ==> big * p + p <= q * p
  {
    BlockFits(q, big, p);
    BlockFits(big, q, p);
  }

  // ---- one row through the merge ----

  /** A candidate: a score and a token id; padding carries id -1. */
  datatype Cand = Cand(score: real, id: int)

  /** Higher score first, then lower id. */
  predicate Better(a: Cand, b: Cand) { a.score > b.score || (a.score == b.score && a.id < b.id) }

  lemma BetterIsOrder()
    ensures StrictWeakOrder(Better) && forall a, b :: a != b ==> Better(a, b) || Better(b, a)
  {
  }

  /** The row's candidates and one rank's share of them, by global id. */
  function RowCands(scores: seq<real>): set<Cand> {
    set t | 0 <= t < |scores| :: Cand(scores[t], t)
  }

  function ShardCands(scores: seq<real>, r: nat, w: nat, g: nat): set<Cand>
    requires 0 < w && 0 < g && r < w
  {
    set t | 0 <= t < |scores| && Owner(t, w, g) == r :: Cand(scores[t], t)
  }

  /** What a rank packs: its selected local positions as (score, global id), padding as is. */
  function PackLocal(local: seq<real>, topk: seq<int>, r: nat, w: nat, g: nat): (packed: seq<Cand>)
    requires 0 < w && 0 < g && forall i | 0 <= i < |topk| :: topk[i] < |local|
  {
    seq(|topk|, i requires 0 <= i < |topk| =>
      if topk[i] < 0 then Cand(0.0, -1) else Cand(local[topk[i]], ToGlobal(topk[i], r, w, g)))
  }

  /** The real candidates of a packed list. */
  function Real(packed: seq<Cand>): set<Cand> {
    set i | 0 <= i < |packed| && packed[i].id >= 0 :: packed[i]
  }

  function Concat<T>(xs: seq<seq<T>>): seq<T> {
    if xs == [] then [] else xs[0] + Concat(xs[1..])
  }

  /** The rank's own score row: its tokens in local order. */
  ghost predicate IsShardRow(scores: seq<real>, local: seq<real>, r: nat, w: nat, g: nat)
    requires 0 < w && 0 < g
  {
    |local| == LocalLen(|scores|, r, w, g) &&
    forall l | 0 <= l < |local| :: ToGlobal(l, r, w, g) < |scores| && local[l] == scores[ToGlobal(l, r, w, g)]
  }

  lemma {:induction false} RealOfConcat(packed: seq<seq<Cand>>)
    ensures Real(Concat(packed)) == Union(seq(|packed|, i requires 0 <= i < |packed| => Real(packed[i])))
  {
    var parts := seq(|packed|, i requires 0 <= i < |packed| => Real(packed[i]));
    if packed != [] {
      var rest := seq(|packed| - 1, i requires 0 <= i < |packed| - 1 => Real(packed[1..][i]));
      RealOfConcat(packed[1..]);
      assert parts == [Real(packed[0])] + rest;
      forall x ensures x in Real(Concat(packed)) <==> x in Union(parts) {
        RealAppend(packed[0], Concat(packed[1..]), x);
        UnionCons(Real(packed[0]), rest, x);
      }
    }
  }

  lemma RealAppend(a: seq<Cand>, b: seq<Cand>, x: Cand)
    ensures x in Real(a + b) <==> x in Real(a) || x in Real(b)
  {
    if x in Real(b) {
      var i :| 0 <= i < |b| && b[i] == x && b[i].id >= 0;
      assert (a + b)[|a| + i] == x;
    }
    if x in Real(a) {
      var i :| 0 <= i < |a| && a[i] == x && a[i].id >= 0;
      assert (a + b)[i] == x;
    }
  }

  lemma UnionCons<T(!new)>(a: set<T>, rest: seq<set<T>>, x: T)
    ensures x in Union([a] + rest) <==> x in a || x in Union(rest)
  {
    if x in Union(rest) {
      var i :| 0 <= i < |rest| && x in rest[i];
      assert ([a] + rest)[i + 1] == rest[i];
    }
    if x in a {
      assert ([a] + rest)[0] == a;
    }
  }

  /** The shards partition the row. */
  lemma ShardsCoverRow(scores: seq<real>, w: nat, g: nat)
    requires 0 < w && 0 < g
    ensures Union(seq(w, r requires 0 <= r < w => ShardCands(scores, r, w, g))) == RowCands(scores)
  {
    var shards := seq(w, r requires 0 <= r < w => ShardCands(scores, r, w, g));
    forall x | x in RowCands(scores) ensures x in Union(shards) {
      assert x in shards[Owner(x.id, w, g)];
    }
  }

  /** A rank's own row, relabelled with global ids, is its shard of the row. */
  lemma ShardRowIsShard(scores: seq<real>, local: seq<real>, r: nat, w: nat, g: nat)
    requires 0 < w && 0 < g && r < w && IsShardRow(scores, local, r, w, g)
    ensures ShardCands(scores, r, w, g) == set l | 0 <= l < |local| :: Cand(local[l], ToGlobal(l, r, w, g))
  {
    InterleaveBijection(|scores|, w, g);
    forall x | x in ShardCands(scores, r, w, g)
      ensures x in set l | 0 <= l < |local| :: Cand(local[l], ToGlobal(l, r, w, g))
    {
      var l := ToLocal(x.id, w, g);
      assert ToGlobal(l, r, w, g) == x.id;
    }
  }

  /** The merge is exact end to end: if every rank's packed list holds a top-k of its own
      interleaved shard row, a selection of the k best of the gathered candidates selects the
      k best tokens of the whole row, and no other set does. */
  lemma DcpMergeExact(scores: seq<real>, locals: seq<seq<real>>, topks: seq<seq<int>>, w: nat, g: nat, k: nat,
      t: set<Cand>)
    requires 0 < w && 0 < g && |locals| == |topks| == w
    requires forall r | 0 <= r < w :: IsShardRow(scores, locals[r], r, w, g)
    requires forall r | 0 <= r < w :: forall i | 0 <= i < |topks[r]| :: topks[r][i] < |locals[r]|
    requires forall r | 0 <= r < w ::
               IsTopK(Better, set l | 0 <= l < |locals[r]| :: Cand(locals[r][l], ToGlobal(l, r, w, g)), k,
                      Real(PackLocal(locals[r], topks[r], r, w, g)))
    ensures
      var gathered := Concat(seq(w, r requires 0 <= r < w => PackLocal(locals[r], topks[r], r, w, g)));
      IsTopK(Better, Real(gathered), k, t) <==> IsTopK(Better, RowCands(scores), k, t)
  {
    BetterIsOrder();
    var packed := seq(w, r requires 0 <= r < w => PackLocal(locals[r], topks[r], r, w, g));
    var shards := seq(w, r requires 0 <= r < w => ShardCands(scores, r, w, g));
    var reals := seq(w, r requires 0 <= r < w => Real(packed[r]));
    forall r | 0 <= r < w ensures IsTopK(Better, shards[r], k, reals[r]) {
      ShardRowIsShard(scores, locals[r], r, w, g);
    }
    RealOfConcat(packed);
    ShardsCoverRow(scores, w, g);
    MergeExactIff(Better, shards, reals, k, t);
  }

  // ---- selecting from the gathered list, padding included ----

  /** Padding ranks lowest. */
  predicate Beats(a: Cand, b: Cand) { a.id >= 0 && (b.id < 0 || Better(a, b)) }

  /** What the selector may return: k of the gathered entries (all of them if there are fewer),
      none of those left out beating one returned. */
  ghost predicate IsSelection(gathered: seq<Cand>, k: nat, out: seq<Cand>) {
    && |out| == Min(k, |gathered|) && multiset(out) <= multiset(gathered)
    && forall x, y | x in multiset(gathered) - multiset(out) && y in out :: !Beats(x, y)
  }

  /** No real candidate is listed twice. */
  ghost predicate RealOnce(s: seq<Cand>) {
    forall x: Cand | x.id >= 0 :: multiset(s)[x] <= 1
  }

  function RealCount(s: seq<Cand>): (n: nat)
    ensures n <= |s|
  {
    if s == [] then 0 else RealCount(s[1..]) + if s[0].id >= 0 then 1 else 0
  }

  lemma HeadTail(s: seq<Cand>)
    requires s != []
    ensures multiset(s) == multiset{s[0]} + multiset(s[1..])
    ensures Real(s) == Real(s[1..]) + if s[0].id >= 0 then {s[0]} else {}
  {
    assert s == [s[0]] + s[1..];
    forall x ensures x in Real(s) <==> x in Real(s[1..]) + if s[0].id >= 0 then {s[0]} else {} {
      RealAppend([s[0]], s[1..], x);
    }
  }

  lemma {:induction false} RealCountIs(s: seq<Cand>)
    ensures RealOnce(s) ==> |Real(s)| == RealCount(s)
    ensures |Real(s)| <= RealCount(s)
  {
    if s != [] {
      HeadTail(s);
      RealCountIs(s[1..]);
      if RealOnce(s) {
        forall x: Cand | x.id >= 0 ensures multiset(s[1..])[x] <= 1 {
          assert multiset(s)[x] <= 1;
        }
        if s[0].id >= 0 {
          assert multiset(s)[s[0]] <= 1;
          assert s[0] !in multiset(s[1..]);
        }
      }
    }
  }

  lemma {:induction false} AllReal(s: seq<Cand>)
    ensures RealCount(s) == |s| <==> forall x | x in s :: x.id >= 0
  {
    if s != [] {
      AllReal(s[1..]);
      assert s == [s[0]] + s[1..];
    }
  }

  /** The real part of a selection is the top-k of the real candidates: padding is only returned
      when no real candidate is left out. */
  lemma SelectionIsTopK(gathered: seq<Cand>, k: nat, out: seq<Cand>)
    requires IsSelection(gathered, k, out) && RealOnce(gathered)
    ensures IsTopK(Better, Real(gathered), k, Real(out))
    ensures RealCount(out) == |Real(out)|
  {
    forall x: Cand | x.id >= 0 ensures multiset(out)[x] <= 1 {
      assert multiset(gathered)[x] <= 1;
    }
    RealCountIs(out);
    RealCountIs(gathered);
    forall x | x in Real(out) ensures x in Real(gathered) {
      assert x in multiset(out);
      assert x in multiset(gathered);
    }
    SubsetSize(Real(out), Real(gathered));
    forall x, y | x in Real(gathered) - Real(out) && y in Real(out) ensures !Better(x, y) {
      LeftOut(gathered, out, x);
      assert y in out && !Beats(x, y);
    }
    if x :| x in Real(gathered) - Real(out) {
      LeftOut(gathered, out, x);
      forall y | y in out ensures y.id >= 0 {
        assert !Beats(x, y);
      }
      AllReal(out);
    } else {
      forall x | x in Real(gathered) ensures x in Real(out) {
        assert x !in Real(gathered) - Real(out);
      }
      assert Real(out) == Real(gathered);
    }
  }

  lemma LeftOut(gathered: seq<Cand>, out: seq<Cand>, x: Cand)
    requires x in Real(gathered) - Real(out)
    ensures x in multiset(gathered) - multiset(out)
  {
    assert x in multiset(gathered) && x !in multiset(out);
  }

  /** A rank packs each position it selected once. */
  ghost predicate SelectsOnce(topk: seq<int>) {
    forall i, j | 0 <= i < j < |topk| && topk[i] >= 0 :: topk[i] != topk[j]
  }

  /** Every real entry is a token of rank r. */
  ghost predicate OwnedBy(packed: seq<Cand>, r: nat, w: nat, g: nat)
    requires 0 < w && 0 < g
  {
    forall x | x in packed && x.id >= 0 :: Owner(x.id, w, g) == r
  }

  lemma {:induction false} DistinctOnce(s: seq<Cand>)
    requires forall i, j | 0 <= i < j < |s| && s[i].id >= 0 :: s[i] != s[j]
    ensures RealOnce(s)
  {
    if s != [] {
      DistinctOnce(s[1..]);
      HeadTail(s);
      forall j | 0 <= j < |s[1..]| && s[0].id >= 0 ensures s[1..][j] != s[0] {
      }
    }
  }

  lemma PackedOnce(local: seq<real>, topk: seq<int>, r: nat, w: nat, g: nat)
    requires 0 < w && 0 < g && r < w && SelectsOnce(topk) && forall i | 0 <= i < |topk| :: topk[i] < |local|
    ensures RealOnce(PackLocal(local, topk, r, w, g)) && OwnedBy(PackLocal(local, topk, r, w, g), r, w, g)
  {
    var packed := PackLocal(local, topk, r, w, g);
    InterleaveBijection(0, w, g);
    forall i, j | 0 <= i < j < |packed| && packed[i].id >= 0 ensures packed[i] != packed[j] {
      if packed[j].id >= 0 {
        assert ToLocal(packed[i].id, w, g) == topk[i] && ToLocal(packed[j].id, w, g) == topk[j];
      }
    }
    DistinctOnce(packed);
  }

  /** Ranks own different tokens, so the gathered list has each real candidate once too. */
  lemma {:induction false} ConcatOnce(packed: seq<seq<Cand>>, from: nat, w: nat, g: nat)
    requires 0 < w && 0 < g
    requires forall r | 0 <= r < |packed| :: RealOnce(packed[r]) && OwnedBy(packed[r], from + r, w, g)
    ensures RealOnce(Concat(packed))
    ensures forall x | x in Concat(packed) && x.id >= 0 :: Owner(x.id, w, g) >= from
  {
    if packed != [] {
      var rest := Concat(packed[1..]);
      ConcatOnce(packed[1..], from + 1, w, g);
      forall x: Cand | x.id >= 0 ensures multiset(packed[0] + rest)[x] <= 1 {
        assert multiset(packed[0] + rest) == multiset(packed[0]) + multiset(rest);
        if x in rest {
          assert x !in packed[0];
        }
      }
    }
  }

  /** The whole merge, padding and all: whatever the selector returns from the gathered lists,
      its real entries are the k best tokens of the row, each once, and the others are padding. */
  lemma DcpSelectionExact(scores: seq<real>, locals: seq<seq<real>>, topks: seq<seq<int>>, w: nat, g: nat, k: nat,
      out: seq<Cand>)
    requires 0 < w && 0 < g && |locals| == |topks| == w
    requires forall r | 0 <= r < w :: IsShardRow(scores, locals[r], r, w, g) && SelectsOnce(topks[r])
    requires forall r | 0 <= r < w :: forall i | 0 <= i < |topks[r]| :: topks[r][i] < |locals[r]|
    requires forall r | 0 <= r < w ::
               IsTopK(Better, set l | 0 <= l < |locals[r]| :: Cand(locals[r][l], ToGlobal(l, r, w, g)), k,
                      Real(PackLocal(locals[r], topks[r], r, w, g)))
    requires IsSelection(Concat(seq(w, r requires 0 <= r < w => PackLocal(locals[r], topks[r], r, w, g))), k, out)
    ensures IsTopK(Better, RowCands(scores), k, Real(out))
    ensures RealCount(out) == |Real(out)| && forall x | x in out && x !in Real(out) :: x == Cand(0.0, -1)
  {
    var packed := seq(w, r requires 0 <= r < w => PackLocal(locals[r], topks[r], r, w, g));
    forall r | 0 <= r < w ensures RealOnce(packed[r]) && OwnedBy(packed[r], 0 + r, w, g) {
      PackedOnce(locals[r], topks[r], r, w, g);
    }
    ConcatOnce(packed, 0, w, g);
    SelectionIsTopK(Concat(packed), k, out);
    DcpMergeExact(scores, locals, topks, w, g, k, Real(out));
    PaddingOnly(packed);
    forall x | x in out && x !in Real(out) ensures x == Cand(0.0, -1) {
      assert x in multiset(out);
      assert x in multiset(Concat(packed));
    }
  }

  lemma {:induction false} PaddingOnly(packed: seq<seq<Cand>>)
    requires forall r, x | 0 <= r < |packed| && x in packed[r] :: x.id >= 0 || x == Cand(0.0, -1)
    ensures forall x | x in Concat(packed) :: x.id >= 0 || x == Cand(0.0, -1)
  {
    if packed != [] {
      PaddingOnly(packed[1..]);
    }
  }

  /** The same in scores and ids: as many tokens as there are, up to k; each with its own score; no
      token left out scores higher than one returned, and on equal scores the returned one has the
      lower id. */
  lemma DcpSelectionByScore(scores: seq<real>, locals: seq<seq<real>>, topks: seq<seq<int>>, w: nat, g: nat, k: nat,
                            out: seq<Cand>)
    requires 0 < w && 0 < g && |locals| == |topks| == w
    requires forall r | 0 <= r < w :: IsShardRow(scores, locals[r], r, w, g) && SelectsOnce(topks[r])
    requires forall r | 0 <= r < w :: forall i | 0 <= i < |topks[r]| :: topks[r][i] < |locals[r]|
    requires forall r | 0 <= r < w ::
               IsTopK(Better, set l | 0 <= l < |locals[r]| :: Cand(locals[r][l], ToGlobal(l, r, w, g)), k,
                      Real(PackLocal(locals[r], topks[r], r, w, g)))
    requires IsSelection(Concat(seq(w, r requires 0 <= r < w => PackLocal(locals[r], topks[r], r, w, g))), k, out)
    ensures |set x | x in out && x.id >= 0| == Min(k, |scores|)
    ensures forall x | x in out && x.id >= 0 :: x.id < |scores| && x.score == scores[x.id]
    ensures forall t: nat, y | t < |scores| && Cand(scores[t], t) !in out && y in out && y.id >= 0 ::
              scores[t] < y.score || (scores[t] == y.score && y.id < t)
  {
    DcpSelectionExact(scores, locals, topks, w, g, k, out);
    assert (set x | x in out && x.id >= 0) == Real(out);
    RowSize(scores, |scores|);
    assert (set t | 0 <= t < |scores| :: Cand(scores[t], t)) == RowCands(scores);
    forall t: nat, y | t < |scores| && Cand(scores[t], t) !in out && y in out && y.id >= 0
      ensures scores[t] < y.score || (scores[t] == y.score && y.id < t)
    {
      var x := Cand(scores[t], t);
      assert x in RowCands(scores) - Real(out) && y in Real(out);
      assert !Better(x, y) && y in RowCands(scores) && x != y;
      BetterByScore(x, y);
      BetterByScore(y, x);
    }
  }

  lemma BetterByScore(a: Cand, b: Cand)
    ensures Better(a, b) <==> a.score > b.score || (a.score == b.score && a.id < b.id)
  {
  }

  lemma {:induction false} RowSize(scores: seq<real>, n: nat)
    requires n <= |scores|
    ensures |set t | 0 <= t < n :: Cand(scores[t], t)| == n
  {
    var all := set t | 0 <= t < n :: Cand(scores[t], t);
    if n == 0 {
      assert all == {};
    } else {
      var before := set t | 0 <= t < n - 1 :: Cand(scores[t], t);
      RowSize(scores, n - 1);
      assert all == before + {Cand(scores[n - 1], n - 1)};
      assert Cand(scores[n - 1], n - 1) !in before;
    }
  }
}
