/** The in-place side of the draft ring: the K/V scatter of one layer, whose writes land in
    any order, and the ring branch of `propose`, proved to be one step of `RingRuns`. */
module RingLayer {
  import opened ModArith
  import opened Prelude
  import opened DraftRing
  import opened RingRuns

  /** Position given to rejected tokens: -(1 << 40). */
  const REJECTED := -0x100_0000_0000

  /** The largest position among row `r`'s tokens in the batch. */
  function RowMax(rows: seq<nat>, pos: seq<int>, r: nat): (m: int)
    requires |rows| == |pos| && r in rows
    ensures exists i | 0 <= i < |rows| :: rows[i] == r && pos[i] == m
    ensures forall i | 0 <= i < |rows| && rows[i] == r :: pos[i] <= m
  {
    var n := |rows| - 1;
    assert rows == rows[..n] + [rows[n]];
    if rows[n] != r then RowMax(rows[..n], pos[..n], r)
    else if r in rows[..n] then Max(RowMax(rows[..n], pos[..n], r), pos[n])
    else pos[n]
  }

  /** Where token `i` is written: its position modulo the width when it is among the row's
      trailing `w` positions, the trash slot `w` otherwise. */
  function Slot(rows: seq<nat>, pos: seq<int>, w: nat, i: nat): (s: nat)
    requires |rows| == |pos| && i < |rows| && 0 < w
    ensures s <= w
  {
    if pos[i] > RowMax(rows, pos, rows[i]) - w then pos[i] % w else w
  }

  function Slots(rows: seq<nat>, pos: seq<int>, w: nat): (s: seq<nat>)
    requires |rows| == |pos| && 0 < w
  {
    seq(|rows|, i requires 0 <= i < |rows| => Slot(rows, pos, w, i))
  }

  /** A rejected token is diverted to the trash slot if and only if its row also has a token
      that was not rejected; a row with only rejected tokens writes into a live slot. */
  lemma RejectedGoesToTrashIff(rows: seq<nat>, pos: seq<int>, w: nat, i: nat)
    requires |rows| == |pos| && i < |rows| && 0 < w <= -REJECTED && pos[i] == REJECTED
    requires forall j | 0 <= j < |rows| :: pos[j] == REJECTED || 0 <= pos[j]
    ensures Slot(rows, pos, w, i) == w <==> exists j | 0 <= j < |rows| :: rows[j] == rows[i] && pos[j] != REJECTED
  {
  }

  /** The cell (r, s) after a scatter: some writer's value, or untouched if it has none. */
  ghost predicate Written<T>(before: T, after: T, rows: seq<nat>, slots: seq<nat>, vals: seq<T>, r: nat, s: nat)
    requires |rows| == |slots| == |vals|
  {
    || (exists i | 0 <= i < |rows| :: rows[i] == r && slots[i] == s && after == vals[i])
    || ((forall i | 0 <= i < |rows| :: rows[i] != r || slots[i] != s) && after == before)
  }

  /** An order in which `n` writes may land: every index appears. */
  ghost predicate Covers(order: seq<nat>, n: nat) {
    && (forall m | 0 <= m < |order| :: order[m] < n)
    && (forall i | 0 <= i < n :: i in order)
  }

  /** An indexed store whose writes land in the order `order`, any order that covers them. */
  method Scatter<T>(ring: array2<T>, rows: seq<nat>, slots: seq<nat>, vals: seq<T>, order: seq<nat>)
    requires |rows| == |slots| == |vals|
    requires forall i | 0 <= i < |rows| :: rows[i] < ring.Length0 && slots[i] < ring.Length1
    requires Covers(order, |rows|)
    modifies ring
    ensures forall r, s | 0 <= r < ring.Length0 && 0 <= s < ring.Length1 ::
              Written(old(ring[r, s]), ring[r, s], rows, slots, vals, r, s)
  {
    for m := 0 to |order|
      invariant forall r, s | 0 <= r < ring.Length0 && 0 <= s < ring.Length1 ::
        || (exists j | 0 <= j < m :: rows[order[j]] == r && slots[order[j]] == s && ring[r, s] == vals[order[j]])
        || ((forall j | 0 <= j < m :: rows[order[j]] != r || slots[order[j]] != s) && ring[r, s] == old(ring[r, s]))
    {
      ring[rows[order[m]], slots[order[m]]] := vals[order[m]];
    }
    forall r, s | 0 <= r < ring.Length0 && 0 <= s < ring.Length1
      ensures Written(old(ring[r, s]), ring[r, s], rows, slots, vals, r, s)
    {
      if exists j | 0 <= j < |order| :: rows[order[j]] == r && slots[order[j]] == s && ring[r, s] == vals[order[j]] {
      } else {
        forall i | 0 <= i < |rows| ensures rows[i] != r || slots[i] != s {
          assert i in order;
          var j :| 0 <= j < |order| && order[j] == i;
        }
      }
    }
  }

  /** The scatter-max over rows, initial values ignored. */
  method RowMaxima(count: nat, rows: seq<nat>, pos: seq<int>) returns (best: seq<int>)
    requires |rows| == |pos| && forall i | 0 <= i < |rows| :: rows[i] < count
    ensures |best| == count && forall r | 0 <= r < count && r in rows :: best[r] == RowMax(rows, pos, r)
  {
    best := seq(count, _ => 0);
    var hit := seq(count, _ => false);
    for i := 0 to |rows|
      invariant |best| == |hit| == count
      invariant forall r | 0 <= r < count :: hit[r] <==> r in rows[..i]
      invariant forall r | 0 <= r < count && hit[r] :: best[r] == RowMax(rows[..i], pos[..i], r)
    {
      var r := rows[i];
      best := best[r := if hit[r] then Max(best[r], pos[i]) else pos[i]];
      hit := hit[r := true];
      assert rows[..i + 1][..i] == rows[..i] && pos[..i + 1][..i] == pos[..i];
    }
    assert rows[..|rows|] == rows && pos[..|rows|] == pos;
  }

  predicate Monotone(qsl: seq<nat>) {
    forall i, j | 0 <= i <= j < |qsl| :: qsl[i] <= qsl[j]
  }

  /** Token `t` lies in segment `i` of the token axis. */
  predicate InSegment(qsl: seq<nat>, i: int, t: int) {
    0 <= i && i + 1 < |qsl| && qsl[i] <= t < qsl[i + 1]
  }

  /** What the flat per-token tensors of a step say about its batch entries. */
  datatype InputBatch<K, V> = InputBatch(
    idxMapping: seq<nat>, queryStartLoc: seq<nat>, positions: seq<int>, seqLens: seq<nat>,
    bounds: seq<nat>, numRejected: seq<nat>, k: seq<K>, v: seq<V>)

  ghost predicate Describes<K, V>(b: InputBatch<K, V>, batch: seq<Entry<(K, V)>>, reqs: seq<Req<(K, V)>>) {
    var n := |batch|;
    && LegalBatch(|reqs|, batch)
    && |b.idxMapping| == |b.seqLens| == |b.bounds| == |b.numRejected| == n
    && |b.queryStartLoc| == n + 1 && b.queryStartLoc[0] == 0
    && |b.positions| == |b.k| == |b.v| == b.queryStartLoc[n]
    && (forall i {:trigger batch[i]} | 0 <= i < n ::
          && b.idxMapping[i] == batch[i].row
          && b.queryStartLoc[i + 1] == b.queryStartLoc[i] + |batch[i].block|
          && b.seqLens[i] == |reqs[batch[i].row].hist| + |batch[i].block|
          && b.bounds[i] == batch[i].bound
          && b.numRejected[i] == batch[i].rejected)
    && Monotone(b.queryStartLoc)
    && (forall i, t {:trigger InSegment(b.queryStartLoc, i, t)} | InSegment(b.queryStartLoc, i, t) ::
          && i < n && 0 <= t < |b.positions|
          && b.positions[t] == |reqs[batch[i].row].hist| + t - b.queryStartLoc[i]
          && (b.k[t], b.v[t]) == batch[i].block[t - b.queryStartLoc[i]])
  }

  /** Segment i of the token axis carries xs[i]. */
  ghost predicate Repeats<T>(out: seq<T>, xs: seq<T>, qsl: seq<nat>)
    requires |qsl| == |xs| + 1
  {
    && |out| == qsl[|xs|]
    && forall i, t {:trigger InSegment(qsl, i, t)} | InSegment(qsl, i, t) && 0 <= t < |out| :: out[t] == xs[i]
  }

  method RepeatInterleave<T>(xs: seq<T>, qsl: seq<nat>) returns (out: seq<T>)
    requires |qsl| == |xs| + 1 && qsl[0] == 0 && Monotone(qsl)
    ensures Repeats(out, xs, qsl)
  {
    out := [];
    for i := 0 to |xs|
      invariant |out| == qsl[i]
      invariant forall j, t {:trigger InSegment(qsl, j, t)} | j < i && InSegment(qsl, j, t) ::
                t < |out| && out[t] == xs[j]
    {
      out := out + seq(qsl[i + 1] - qsl[i], _ => xs[i]);
    }
  }

  /** The row and the ingest position of every token, as `propose` sets them. */
  ghost predicate Redirected<K, V>(b: InputBatch<K, V>, rows: seq<nat>, pos: seq<int>)
    requires |b.queryStartLoc| == |b.idxMapping| + 1 && |b.numRejected| == |b.idxMapping|
    requires |b.positions| == b.queryStartLoc[|b.idxMapping|]
  {
    && |pos| == |rows| && Repeats(rows, b.idxMapping, b.queryStartLoc)
    && forall i, t {:trigger InSegment(b.queryStartLoc, i, t)} | InSegment(b.queryStartLoc, i, t) && 0 <= t < |rows| ::
         pos[t] == if t >= b.queryStartLoc[i + 1] as int - b.numRejected[i] then REJECTED else b.positions[t]
  }

  /** Every token lies in some segment. */
  lemma {:induction false} SegmentOf(qsl: seq<nat>, n: nat, t: nat) returns (i: nat)
    requires n < |qsl| && qsl[0] == 0 && t < qsl[n]
    ensures i < n && InSegment(qsl, i, t)
    decreases n
  {
    if qsl[n - 1] <= t {
      i := n - 1;
    } else {
      i := SegmentOf(qsl, n - 1, t);
    }
  }

  /** A token's row is its segment's row, so a row's tokens are one segment. */
  lemma RowIsSegment<K, V>(b: InputBatch<K, V>, batch: seq<Entry<(K, V)>>, reqs: seq<Req<(K, V)>>,
                           rows: seq<nat>, pos: seq<int>, i: nat, t: nat)
    requires Describes(b, batch, reqs) && Redirected(b, rows, pos)
    requires i < |batch| && t < |rows| && rows[t] == batch[i].row
    ensures InSegment(b.queryStartLoc, i, t)
  {
    var j := SegmentOf(b.queryStartLoc, |batch|, t);
    assert rows[t] == batch[j].row;
  }

  /** The row maximum the ingest sees is the last accepted position. */
  lemma RowMaxIsLastAccepted<K, V>(b: InputBatch<K, V>, batch: seq<Entry<(K, V)>>, reqs: seq<Req<(K, V)>>,
                                   rows: seq<nat>, pos: seq<int>, i: nat)
    requires Describes(b, batch, reqs) && Redirected(b, rows, pos) && i < |batch|
    ensures batch[i].row in rows
    ensures RowMax(rows, pos, batch[i].row) == |reqs[batch[i].row].hist| + |Accepted(batch[i])| - 1
  {
    var lo, r := b.queryStartLoc[i], batch[i].row;
    var last := lo + |Accepted(batch[i])| - 1;
    assert InSegment(b.queryStartLoc, i, last);
    assert rows[last] == r && pos[last] == |reqs[r].hist| + |Accepted(batch[i])| - 1;
    forall t | 0 <= t < |rows| && rows[t] == r ensures pos[t] <= pos[last] {
      RowIsSegment(b, batch, reqs, rows, pos, i, t);
    }
  }

  /** The only token of a batch row that is written to live slot `s` is the one at the slot's
      last position. */
  lemma WriterIsLast<K, V>(b: InputBatch<K, V>, batch: seq<Entry<(K, V)>>, reqs: seq<Req<(K, V)>>,
                           rows: seq<nat>, pos: seq<int>, w: nat, i: nat, s: nat, t: nat)
    requires Describes(b, batch, reqs) && Redirected(b, rows, pos) && i < |batch| && s < w <= -REJECTED
    requires t < |rows| && rows[t] == batch[i].row
    ensures
      var first := |reqs[batch[i].row].hist|;
      var p := LastAt(first + |Accepted(batch[i])|, w, s);
      Slot(rows, pos, w, t) == s <==> first <= p && t == b.queryStartLoc[i] + p - first
  {
    var first := |reqs[batch[i].row].hist|;
    var p := LastAt(first + |Accepted(batch[i])|, w, s);
    RowMaxIsLastAccepted(b, batch, reqs, rows, pos, i);
    RowIsSegment(b, batch, reqs, rows, pos, i, t);
    if Slot(rows, pos, w, t) == s {
      ModUnique(pos[t], p, w);
    }
  }

  /** One live cell of a batch row ends as `AfterIngest` says whatever the write order was. */
  lemma CellAfter<K, V, T>(b: InputBatch<K, V>, batch: seq<Entry<(K, V)>>, reqs: seq<Req<(K, V)>>,
                           rows: seq<nat>, pos: seq<int>, w: nat, vals: seq<T>, i: nat, s: nat, before: T, after: T)
    requires Describes(b, batch, reqs) && Redirected(b, rows, pos) && i < |batch| && s < w <= -REJECTED
    requires |vals| == |rows|
    requires Written(before, after, rows, Slots(rows, pos, w), vals, batch[i].row, s)
    ensures
      var first := |reqs[batch[i].row].hist|;
      var p := LastAt(first + |Accepted(batch[i])|, w, s);
      if p < first then after == before
      else
        var t := b.queryStartLoc[i] + p - first;
        t < |vals| && after == vals[t]
  {
    var r, lo := batch[i].row, b.queryStartLoc[i];
    var first := |reqs[r].hist|;
    var p := LastAt(first + |Accepted(batch[i])|, w, s);
    forall t | 0 <= t < |rows| && rows[t] == r
      ensures Slots(rows, pos, w)[t] == s <==> first <= p && t == lo + p - first
    {
      WriterIsLast(b, batch, reqs, rows, pos, w, i, s, t);
    }
    if first <= p {
      assert InSegment(b.queryStartLoc, i, lo + p - first);
      assert rows[lo + p - first] == r;
    }
  }

  /** A batch row after both scatters. */
  lemma BatchRowAfter<K, V>(b: InputBatch<K, V>, batch: seq<Entry<(K, V)>>, reqs: seq<Req<(K, V)>>,
                            rows: seq<nat>, pos: seq<int>, w: nat, i: nat, before: seq<(K, V)>, after: seq<(K, V)>)
    requires Describes(b, batch, reqs) && Redirected(b, rows, pos) && i < |batch|
    requires 0 < w <= -REJECTED && |before| == |after| == w
    requires forall s | 0 <= s < w ::
               && Written(before[s].0, after[s].0, rows, Slots(rows, pos, w), b.k, batch[i].row, s)
               && Written(before[s].1, after[s].1, rows, Slots(rows, pos, w), b.v, batch[i].row, s)
    ensures after == AfterIngest(before, |reqs[batch[i].row].hist|, Accepted(batch[i]))
  {
    var first := |reqs[batch[i].row].hist|;
    forall s | 0 <= s < w ensures after[s] == AfterIngest(before, first, Accepted(batch[i]))[s] {
      CellAfter(b, batch, reqs, rows, pos, w, b.k, i, s, before[s].0, after[s].0);
      CellAfter(b, batch, reqs, rows, pos, w, b.v, i, s, before[s].1, after[s].1);
      var p := LastAt(first + |Accepted(batch[i])|, w, s);
      if first <= p {
        assert InSegment(b.queryStartLoc, i, b.queryStartLoc[i] + p - first);
      }
    }
  }

  /** Every token's row belongs to some batch entry. */
  lemma TokenRow<K, V>(b: InputBatch<K, V>, batch: seq<Entry<(K, V)>>, reqs: seq<Req<(K, V)>>,
                       rows: seq<nat>, pos: seq<int>, u: nat)
    requires Describes(b, batch, reqs) && Redirected(b, rows, pos) && u < |rows|
    ensures rows[u] < |reqs| && Find(batch, rows[u]) < |batch|
  {
    var j := SegmentOf(b.queryStartLoc, |batch|, u);
    assert rows[u] == batch[j].row;
  }

  /** The host bounds of the batch and of its tensors have the same minimum. */
  lemma BoundsMin<K, V>(b: InputBatch<K, V>, batch: seq<Entry<(K, V)>>, reqs: seq<Req<(K, V)>>, m: nat)
    requires Describes(b, batch, reqs)
    requires m in b.bounds && forall j | 0 <= j < |b.bounds| :: m <= b.bounds[j]
    ensures MinBound(batch) == m
  {
    var k := MinBoundAttained(batch);
    assert b.bounds[k] == batch[k].bound;
    var j :| 0 <= j < |b.bounds| && b.bounds[j] == m;
    assert batch[j].bound == m;
  }

  /** The clamped context lengths the mask is rebuilt from. */
  function ValidDepths<K, V>(b: InputBatch<K, V>, w: nat): (valid: seq<nat>)
    requires |b.numRejected| == |b.seqLens|
    ensures |valid| == |b.seqLens|
  {
    seq(|b.seqLens|, i requires 0 <= i < |b.seqLens| => Max(0, Min(b.seqLens[i] - b.numRejected[i] as int, w)))
  }

  /** The masks a rebuild writes are the ones the run model prescribes. */
  lemma RebuildIsNewMask<K, V>(b: InputBatch<K, V>, batch: seq<Entry<(K, V)>>, reqs: seq<Req<(K, V)>>, c: Config,
                               before: seq<seq<bool>>, after: seq<seq<bool>>)
    requires Describes(b, batch, reqs) && |before| == |after| == |reqs|
    requires forall r | 0 <= r < |reqs| :: |before[r]| == c.w
    requires forall i | 0 <= i < |b.idxMapping| && b.idxMapping[i] < |reqs| ::
               after[b.idxMapping[i]] == PrefixMask(ValidDepths(b, c.w)[i], c.w)
    requires forall r | 0 <= r < |reqs| && r !in b.idxMapping :: after[r] == before[r]
    ensures forall r | 0 <= r < |reqs| :: after[r] == NewMask(c, before[r], reqs, batch, r)
  {
    forall r | 0 <= r < |reqs| ensures after[r] == NewMask(c, before[r], reqs, batch, r) {
      var i := Find(batch, r);
      if i < |batch| {
        assert b.idxMapping[i] == r;
      } else {
        assert forall j | 0 <= j < |batch| :: b.idxMapping[j] == batch[j].row;
      }
    }
  }

  lemma IdxMappingDistinct<K, V>(b: InputBatch<K, V>, batch: seq<Entry<(K, V)>>, reqs: seq<Req<(K, V)>>)
    requires Describes(b, batch, reqs)
    ensures forall i | 0 <= i < |batch| :: b.idxMapping[i] < |reqs|
    ensures forall i, j | 0 <= i < j < |batch| :: b.idxMapping[i] != b.idxMapping[j]
  {
    assert forall i | 0 <= i < |batch| :: b.idxMapping[i] == batch[i].row;
  }

  class DraftLayer<K(0), V(0)> {
    const w: nat
    const gamma: nat
    const ringK: array2<K>
    const ringV: array2<V>
    /** attnMask[r, s]: slot s is visible (additive 0); the query tail is always visible. */
    const attnMask: array2<bool>
    var maskSteady: bool
    var queryRows: seq<nat>
    var ctxRows: seq<nat>
    var ctxPositions: seq<int>

    ghost predicate Valid() {
      && 0 < w <= -REJECTED
      && ringK.Length0 == ringV.Length0 == attnMask.Length0
      && ringK.Length1 == ringV.Length1 == w + 1 && attnMask.Length1 == w
      && ringK as object != ringV && ringK as object != attnMask && ringV as object != attnMask
    }

    ghost function Row(r: nat): (row: seq<(K, V)>)
      requires Valid() && r < ringK.Length0
      reads ringK, ringV
      ensures |row| == w
    {
      seq(w, s requires 0 <= s < w reads ringK, ringV => (ringK[r, s], ringV[r, s]))
    }

    ghost function MaskRow(r: nat): (row: seq<bool>)
      requires Valid() && r < ringK.Length0
      reads attnMask
      ensures |row| == w
    {
      seq(w, s requires 0 <= s < w reads attnMask => attnMask[r, s])
    }

    /** The abstract state, given the requests on the rows. */
    ghost function Abs(reqs: seq<Req<(K, V)>>): (s: Sys<(K, V)>)
      requires Valid() && |reqs| == ringK.Length0
      reads this`maskSteady, ringK, ringV, attnMask
      ensures Shaped(Config(w, gamma), s)
    {
      Sys(seq(|reqs|, r requires 0 <= r < |reqs| reads ringK, ringV => Row(r)),
          seq(|reqs|, r requires 0 <= r < |reqs| reads attnMask => MaskRow(r)),
          maskSteady, reqs)
    }

    /** Zeroed ring, fully open masks: an initial state of the run model. */
    constructor (maxReqs: nat, w: nat, gamma: nat, zeroK: K, zeroV: V)
      requires 0 < w <= -REJECTED
      ensures Valid() && fresh(ringK) && fresh(ringV) && fresh(attnMask)
      ensures this.w == w && this.gamma == gamma && ringK.Length0 == maxReqs
      ensures Initial(Config(w, gamma), Abs(seq(maxReqs, _ => Req([], 0))))
      ensures forall r | 0 <= r < maxReqs :: MaskRow(r) == PrefixMask(w, w)
    {
      this.w, this.gamma := w, gamma;
      ringK := new K[maxReqs, w + 1]((_, _) => zeroK);
      ringV := new V[maxReqs, w + 1]((_, _) => zeroV);
      attnMask := new bool[maxReqs, w]((_, _) => true);
      maskSteady, queryRows, ctxRows, ctxPositions := false, [], [], [];
      new;
      assert forall r | 0 <= r < maxReqs :: MaskRow(r) == PrefixMask(w, w);
    }

    /** Ingest one step's context K/V. The two scatters may land in different orders. */
    method RingIngest(k: seq<K>, v: seq<V>, rows: seq<nat>, positions: seq<int>, orderK: seq<nat>, orderV: seq<nat>)
      requires Valid() && |k| == |v| == |rows| == |positions| && Covers(orderK, |rows|) && Covers(orderV, |rows|)
      requires forall i | 0 <= i < |rows| :: rows[i] < ringK.Length0
      modifies ringK, ringV
      ensures forall r, s | 0 <= r < ringK.Length0 && 0 <= s < w ::
                && Written(old(ringK[r, s]), ringK[r, s], rows, Slots(rows, positions, w), k, r, s)
                && Written(old(ringV[r, s]), ringV[r, s], rows, Slots(rows, positions, w), v, r, s)
    {
      var rowMax := RowMaxima(ringK.Length0, rows, positions);
      var slots := seq(|rows|, i requires 0 <= i < |rows| && rows[i] < |rowMax| =>
        if positions[i] > rowMax[rows[i]] - w then positions[i] % w else w);
      assert slots == Slots(rows, positions, w);
      Scatter(ringK, rows, slots, k, orderK);
      Scatter(ringV, rows, slots, v, orderV);
    }

    /** The rows and positions of the context tokens, rejected ones redirected. */
    method SetContext(b: InputBatch<K, V>)
      requires Valid()
      requires |b.queryStartLoc| == |b.idxMapping| + 1 && |b.numRejected| == |b.idxMapping|
      requires b.queryStartLoc[0] == 0 && |b.positions| == b.queryStartLoc[|b.idxMapping|] && Monotone(b.queryStartLoc)
      modifies this`queryRows, this`ctxRows, this`ctxPositions
      ensures queryRows == b.idxMapping && Redirected(b, ctxRows, ctxPositions)
    {
      queryRows := b.idxMapping;
      ctxRows := RepeatInterleave(b.idxMapping, b.queryStartLoc);
      var segEnd: seq<int> := RepeatInterleave<int>(b.queryStartLoc[1..], b.queryStartLoc);
      var rejected: seq<int> := RepeatInterleave<int>(b.numRejected, b.queryStartLoc);
      var n := |ctxRows|;
      ctxPositions := seq(n, tok requires 0 <= tok < n && |segEnd| == |rejected| == |b.positions| == n =>
        if tok >= segEnd[tok] - rejected[tok] then REJECTED else b.positions[tok]);
    }

    /** Rebuild the mask rows of the batch, in batch order. */
    method RebuildMask(idxMap: seq<nat>, valid: seq<nat>)
      requires Valid() && |valid| == |idxMap|
      requires forall i | 0 <= i < |idxMap| :: idxMap[i] < ringK.Length0 && valid[i] <= w
      requires forall i, j | 0 <= i < j < |idxMap| :: idxMap[i] != idxMap[j]
      modifies attnMask
      ensures forall i | 0 <= i < |idxMap| :: MaskRow(idxMap[i]) == PrefixMask(valid[i], w)
      ensures forall r | 0 <= r < ringK.Length0 && r !in idxMap :: MaskRow(r) == old(MaskRow(r))
    {
      for i := 0 to |idxMap|
        invariant forall j, s | 0 <= j < i && 0 <= s < w :: attnMask[idxMap[j], s] == (s < valid[j])
        invariant forall r, s | 0 <= r < ringK.Length0 && r !in idxMap[..i] && 0 <= s < w ::
                    attnMask[r, s] == old(attnMask[r, s])
      {
        forall s | 0 <= s < w {
          attnMask[idxMap[i], s] := s < valid[i];
        }
      }
      assert idxMap[..|idxMap|] == idxMap;
    }

    /** Rebuild the masks unless the flag is steady and the batch deep; refresh the flag. */
    method UpdateMask(b: InputBatch<K, V>, ghost batch: seq<Entry<(K, V)>>, ghost reqs: seq<Req<(K, V)>>)
      requires Valid() && |reqs| == ringK.Length0 && Describes(b, batch, reqs)
      modifies this`maskSteady, attnMask
      ensures maskSteady == Deep(Config(w, gamma), batch)
      ensures forall r | 0 <= r < |reqs| ::
                MaskRow(r) == if old(maskSteady) && Deep(Config(w, gamma), batch) then old(MaskRow(r))
                              else NewMask(Config(w, gamma), old(MaskRow(r)), reqs, batch, r)
    {
      var minBound := MinOf(b.bounds);
      BoundsMin(b, batch, reqs, minBound);
      if !(maskSteady && minBound > w + gamma) {
        ghost var before := seq(|reqs|, r requires 0 <= r < |reqs| reads attnMask => MaskRow(r));
        IdxMappingDistinct(b, batch, reqs);
        RebuildMask(b.idxMapping, ValidDepths(b, w));
        maskSteady := minBound > w + gamma;
        ghost var after := seq(|reqs|, r requires 0 <= r < |reqs| reads attnMask => MaskRow(r));
        RebuildIsNewMask(b, batch, reqs, Config(w, gamma), before, after);
        assert forall r | 0 <= r < |reqs| :: after[r] == MaskRow(r) && before[r] == old(MaskRow(r));
      }
    }

    /** Ingest the step's tokens at their redirected positions. */
    method IngestContext(b: InputBatch<K, V>, orderK: seq<nat>, orderV: seq<nat>,
                         ghost batch: seq<Entry<(K, V)>>, ghost reqs: seq<Req<(K, V)>>)
      requires Valid() && |reqs| == ringK.Length0 && Describes(b, batch, reqs)
      requires Redirected(b, ctxRows, ctxPositions)
      requires Covers(orderK, |b.positions|) && Covers(orderV, |b.positions|)
      modifies ringK, ringV
      ensures forall r | 0 <= r < |reqs| :: Row(r) == NewRow(old(Row(r)), reqs, batch, r)
    {
      forall u | 0 <= u < |ctxRows| ensures ctxRows[u] < |reqs| {
        TokenRow(b, batch, reqs, ctxRows, ctxPositions, u);
      }
      RingIngest(b.k, b.v, ctxRows, ctxPositions, orderK, orderV);
      forall r | 0 <= r < |reqs| ensures Row(r) == NewRow(old(Row(r)), reqs, batch, r) {
        var i := Find(batch, r);
        if i < |batch| {
          BatchRowAfter(b, batch, reqs, ctxRows, ctxPositions, w, i, old(Row(r)), Row(r));
        } else {
          forall u | 0 <= u < |ctxRows| ensures ctxRows[u] != r {
            TokenRow(b, batch, reqs, ctxRows, ctxPositions, u);
          }
          assert Row(r) == old(Row(r));
        }
      }
    }

    /** The ring branch of `propose` and the ingest it leads to: one step of the run model. */
    method Propose(b: InputBatch<K, V>, orderK: seq<nat>, orderV: seq<nat>,
                   ghost batch: seq<Entry<(K, V)>>, ghost reqs: seq<Req<(K, V)>>)
      requires Valid() && |reqs| == ringK.Length0 && Describes(b, batch, reqs)
      requires Covers(orderK, |b.positions|) && Covers(orderV, |b.positions|)
      modifies this, ringK, ringV, attnMask
      ensures Valid()
      ensures
        var t := Apply(Config(w, gamma), old(Abs(reqs)), Step(batch), true);
        Abs(t.reqs) == t
    {
      SetContext(b);
      UpdateMask(b, batch, reqs);
      IngestContext(b, orderK, orderV, batch, reqs);
      ghost var s := old(Abs(reqs));
      ghost var t := Apply(Config(w, gamma), s, Step(batch), true);
      ApplyIs(Config(w, gamma), s, batch, Abs(t.reqs));
    }
  }

  /** The smallest element of a non-empty list. */
  method MinOf(xs: seq<nat>) returns (m: nat)
    requires xs != []
    ensures m in xs && forall j | 0 <= j < |xs| :: m <= xs[j]
  {
    m := xs[0];
    for i := 1 to |xs|
      invariant m in xs && forall j | 0 <= j < i :: m <= xs[j]
    {
      if xs[i] < m {
        m := xs[i];
      }
    }
  }
}
