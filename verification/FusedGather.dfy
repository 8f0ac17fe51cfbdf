/** One all-gather over [q | candidates] instead of two, and the deferred hand-off of the
    candidates from the indexer to the attention layer. */
module FusedGather {
  import opened ModArith
  import opened Prelude

  type Row<T> = seq<T>

  /** All-gather along dim 1: each batch row is the concatenation of the ranks' rows, read out
      of the rank-major gather buffer. xs[rank][batch row] has `d` entries. */
  function AllGather<T>(xs: seq<seq<Row<T>>>, batch: nat, d: nat): (out: seq<Row<T>>)
    requires forall w | 0 <= w < |xs| :: |xs[w]| == batch
    requires forall w, b | 0 <= w < |xs| && 0 <= b < batch :: |xs[w][b]| == d
    ensures |out| == batch && forall b | 0 <= b < batch :: |out[b]| == |xs| * d
  {
    seq(batch, b requires 0 <= b < batch =>
      seq(|xs| * d, i requires 0 <= i < |xs| * d =>
        InChunk(|xs|, d, i);
        xs[i / d][b][i % d]))
  }

  lemma InChunk(n: nat, d: nat, i: nat)
    requires i < n * d
    ensures 0 < d && i / d < n && i % d < d
  {
    if d != 0 {
      BlockFits(n - 1, i / d, d);
      assert (n - 1) * d + d == n * d;
    }
  }

  /** Per-rank columns [from, from + width) of a gathered row viewed as (ranks, n), flattened. */
  function Columns<T>(row: Row<T>, ranks: nat, n: nat, from: nat, width: nat): (out: Row<T>)
    requires |row| == ranks * n && from + width <= n
    ensures |out| == ranks * width
  {
    seq(ranks * width, i requires 0 <= i < ranks * width =>
      InChunk(ranks, width, i);
      InColumns(ranks, n, i / width, from + i % width);
      row[i / width * n + (from + i % width)])
  }

  lemma InColumns(ranks: nat, n: nat, w: nat, c: nat)
    requires w < ranks && c < n
    ensures w * n + c < ranks * n
  {
    BlockFits(w, ranks, n);
  }

  /** The per-row concatenation of two tensors on every rank. */
  function Fuse<T>(q: seq<seq<Row<T>>>, p: seq<seq<Row<T>>>, batch: nat): (buf: seq<seq<Row<T>>>)
    requires |q| == |p| && forall w | 0 <= w < |q| :: |q[w]| == |p[w]| == batch
    ensures |buf| == |q| && forall w | 0 <= w < |q| :: |buf[w]| == batch
    ensures forall w, b | 0 <= w < |q| && 0 <= b < batch :: buf[w][b] == q[w][b] + p[w][b]
  {
    seq(|q|, w requires 0 <= w < |q| => seq(batch, b requires 0 <= b < batch => q[w][b] + p[w][b]))
  }

  ghost predicate Shaped<T>(xs: seq<seq<Row<T>>>, batch: nat, d: nat) {
    && (forall w | 0 <= w < |xs| :: |xs[w]| == batch)
    && (forall w, b | 0 <= w < |xs| && 0 <= b < batch :: |xs[w][b]| == d)
  }

  /** Entry (rank w, column c) of a gathered row. */
  lemma GatheredEntry<T>(xs: seq<seq<Row<T>>>, batch: nat, d: nat, b: nat, w: nat, c: nat)
    requires Shaped(xs, batch, d) && b < batch && w < |xs| && c < d
    ensures w * d + c < |xs| * d && AllGather(xs, batch, d)[b][w * d + c] == xs[w][b][c]
  {
    InColumns(|xs|, d, w, c);
    DivModIs(w * d + c, d, w, c);
  }

  /** A slice of the fused gather is the gather of the slices. */
  lemma SliceOfGather<T>(xs: seq<seq<Row<T>>>, ys: seq<seq<Row<T>>>, batch: nat, n: nat, from: nat, width: nat, b: nat)
    requires |xs| == |ys| && Shaped(xs, batch, n) && Shaped(ys, batch, width) && from + width <= n && b < batch
    requires forall w, b | 0 <= w < |xs| && 0 <= b < batch :: xs[w][b][from..from + width] == ys[w][b]
    ensures Columns(AllGather(xs, batch, n)[b], |xs|, n, from, width) == AllGather(ys, batch, width)[b]
  {
    var got, want := Columns(AllGather(xs, batch, n)[b], |xs|, n, from, width), AllGather(ys, batch, width)[b];
    forall i | 0 <= i < |xs| * width ensures got[i] == want[i] {
      InChunk(|xs|, width, i);
      var w, c := i / width, i % width;
      GatheredEntry(xs, batch, n, b, w, from + c);
      assert xs[w][b][from..from + width][c] == xs[w][b][from + c];
    }
  }

  /** Fused gather equals two gathers, for every number of ranks, batch and row size: slicing
      the single gather of [q | p] gives exactly the gather of q and the gather of p. */
  lemma FusedGatherExact<T>(q: seq<seq<Row<T>>>, p: seq<seq<Row<T>>>, batch: nat, qd: nat, pd: nat, b: nat)
    requires |q| == |p| && Shaped(q, batch, qd) && Shaped(p, batch, pd) && b < batch
    ensures
      var buf := Fuse(q, p, batch);
      && Shaped(buf, batch, qd + pd)
      && Columns(AllGather(buf, batch, qd + pd)[b], |q|, qd + pd, 0, qd) == AllGather(q, batch, qd)[b]
      && Columns(AllGather(buf, batch, qd + pd)[b], |q|, qd + pd, qd, pd) == AllGather(p, batch, pd)[b]
  {
    var buf := Fuse(q, p, batch);
    SliceOfGather(buf, q, batch, qd + pd, 0, qd, b);
    SliceOfGather(buf, p, batch, qd + pd, qd, pd, b);
  }

  // ---- the deferred hand-off ----

  /** One indexer run. For each decode row, the rank's packed candidates and its local selection;
      for each prefill row the merged selection, which is never deferred. A padded decode batch
      keeps the immediate gather. */
  datatype Indexed<C, I> = Indexed(packed: seq<C>, local: seq<I>, prefill: seq<I>, padded: bool)

  /** A layer: an indexer run, or none when the previous layer's selection is reused; and its
      attention: how many rows read the selection, and the two configurations in which the
      queries are not gathered over the candidates' group. */
  datatype Layer<C, I> = Layer(index: Option<Indexed<C, I>>, mqaRows: nat, pcp: bool, replicated: bool)

  /** The shared selection buffer, row by row, and the parked candidate set. */
  datatype State<C, I> = State(buffer: seq<I>, pending: Option<seq<C>>)

  /** The reads of a trace, and the candidate set still parked at its end. */
  datatype Outcome<C, I> = Outcome(seen: seq<seq<I>>, left: Option<seq<C>>)

  function Merged<C, I>(merge: C -> I, packed: seq<C>): (rows: seq<I>)
    ensures |rows| == |packed|
  {
    seq(|packed|, i requires 0 <= i < |packed| => merge(packed[i]))
  }

  /** The buffer with its first rows replaced. */
  function Overwrite<I>(buffer: seq<I>, rows: seq<I>): seq<I> {
    rows + if |rows| < |buffer| then buffer[|rows|..] else []
  }

  /** What attention reads: the first n rows. */
  function Read<I>(buffer: seq<I>, n: nat): seq<I> {
    if n <= |buffer| then buffer[..n] else buffer
  }

  /** The buffer once an indexer run has been merged. */
  function AfterRun<C, I>(merge: C -> I, buffer: seq<I>, l: Layer<C, I>): seq<I> {
    match l.index
    case None => buffer
    case Some(x) => Overwrite(buffer, Merged(merge, x.packed) + x.prefill)
  }

  /** The non-deferred path: what each layer's attention reads. */
  function Immediate<C, I>(merge: C -> I, buffer: seq<I>, layers: seq<Layer<C, I>>): (seen: seq<seq<I>>)
    ensures |seen| == |layers|
    decreases |layers|
  {
    if layers == [] then []
    else
      var now := AfterRun(merge, buffer, layers[0]);
      [Read(now, layers[0].mqaRows)] + Immediate(merge, now, layers[1..])
  }

  predicate Defers<C, I>(l: Layer<C, I>) {
    l.index.Some? && !l.index.value.padded && l.index.value.packed != []
  }

  /** The indexer half of a layer: a deferring run leaves the local selections in the buffer and
      parks the candidates, failing if some are already parked. */
  function IndexerStep<C, I>(merge: C -> I, s: State<C, I>, l: Layer<C, I>): Option<State<C, I>> {
    if !Defers(l) then Some(s.(buffer := AfterRun(merge, s.buffer, l)))
    else if s.pending.Some? then None
    else
      var x := l.index.value;
      Some(State(Overwrite(s.buffer, x.local + x.prefill), Some(x.packed)))
  }

  /** Whether the attention of a layer gathers its queries, and so takes what is parked. */
  predicate Takes<C, I>(l: Layer<C, I>) {
    l.mqaRows > 0 && !l.pcp && !l.replicated
  }

  /** The attention half: take the parked candidates, which must have one row per query row, and
      finish their selections in the buffer before reading it. */
  function AttentionStep<C, I>(merge: C -> I, s: State<C, I>, l: Layer<C, I>): Option<State<C, I>> {
    if !Takes(l) || s.pending.None? then Some(s)
    else if |s.pending.value| != l.mqaRows then None
    else Some(State(Overwrite(s.buffer, Merged(merge, s.pending.value)), None))
  }

  function LayerStep<C, I>(merge: C -> I, s: State<C, I>, l: Layer<C, I>): Option<State<C, I>> {
    match IndexerStep(merge, s, l)
    case None => None
    case Some(t) => AttentionStep(merge, t, l)
  }

  /** The deferred path, or None when it fails. */
  function Deferred<C, I>(merge: C -> I, s: State<C, I>, layers: seq<Layer<C, I>>): (out: Option<Outcome<C, I>>)
    ensures out.Some? ==> |out.value.seen| == |layers|
    decreases |layers|
  {
    if layers == [] then Some(Outcome([], s.pending))
    else match LayerStep(merge, s, layers[0])
      case None => None
      case Some(t) =>
        match Deferred(merge, t, layers[1..])
        case None => None
        case Some(rest) => Some(rest.(seen := [Read(t.buffer, layers[0].mqaRows)] + rest.seen))
  }

  /** The deferred path succeeds: every layer reads what it would read on the immediate path,
      and every candidate set has been consumed. */
  ghost predicate Delivers<C, I>(merge: C -> I, s: State<C, I>, buffer: seq<I>, layers: seq<Layer<C, I>>) {
    Deferred(merge, s, layers) == Some(Outcome(Immediate(merge, buffer, layers), None))
  }

  /** Every run covers some rows, with a local selection for each candidate row; and a layer
      without a run either has no query rows, as in a dense prefill batch, or serves the same
      batch as the layer before it. */
  ghost predicate Legal<C, I>(layers: seq<Layer<C, I>>) {
    && (forall i | 0 <= i < |layers| && layers[i].index.Some? :: LegalRun(layers[i].index.value))
    && (forall i | 0 < i < |layers| && layers[i].index.None? ::
          layers[i].mqaRows == 0 || layers[i].mqaRows == layers[i - 1].mqaRows)
  }

  ghost predicate LegalRun<C, I>(x: Indexed<C, I>) {
    |x.packed| == |x.local| && |x.packed| + |x.prefill| > 0
  }

  /** A deferring layer's attention gathers its queries, one per candidate row. */
  predicate Consumes<C, I>(l: Layer<C, I>)
    requires Defers(l)
  {
    !l.pcp && !l.replicated && l.mqaRows == |l.index.value.packed|
  }

  lemma OverwriteTwice<I>(buffer: seq<I>, a: seq<I>, b: seq<I>, p: seq<I>)
    requires |a| == |b|
    ensures Overwrite(Overwrite(buffer, a + p), b) == Overwrite(buffer, b + p)
  {
    if |a + p| < |buffer| {
      assert (a + p + buffer[|a + p|..])[|b|..] == p + buffer[|a + p|..];
    } else {
      assert (a + p)[|b|..] == p;
    }
  }

  /** From a clean slot, a layer that does not defer, or consumes what it defers, leaves a clean
      slot and the immediate path's buffer. */
  lemma CleanStep<C, I>(merge: C -> I, buffer: seq<I>, l: Layer<C, I>)
    requires l.index.Some? ==> LegalRun(l.index.value)
    requires Defers(l) ==> Consumes(l)
    ensures LayerStep(merge, State(buffer, None), l) == Some(State(AfterRun(merge, buffer, l), None))
  {
    if Defers(l) {
      var x := l.index.value;
      OverwriteTwice(buffer, x.local, Merged(merge, x.packed), x.prefill);
    }
  }

  /** Whatever the candidates and selections are: if every deferring layer consumes its own set,
      the deferred path delivers. */
  lemma {:induction false} ConsumersDeliver<C, I>(merge: C -> I, buffer: seq<I>, layers: seq<Layer<C, I>>)
    requires Legal(layers) && forall i | 0 <= i < |layers| && Defers(layers[i]) :: Consumes(layers[i])
    ensures Delivers(merge, State(buffer, None), buffer, layers)
    decreases |layers|
  {
    if layers != [] {
      CleanStep(merge, buffer, layers[0]);
      ConsumersDeliver(merge, AfterRun(merge, buffer, layers[0]), layers[1..]);
    }
  }

  /** Padded decode batches and batches without decode rows: always delivered, whatever the
      contents, the configuration and the numbers of query rows. */
  lemma PaddedDelivers<C, I>(merge: C -> I, buffer: seq<I>, layers: seq<Layer<C, I>>)
    requires Legal(layers)
    requires forall i, x | 0 <= i < |layers| && layers[i].index == Some(x) :: x.padded || x.packed == []
    ensures Delivers(merge, State(buffer, None), buffer, layers)
  {
    forall i | 0 <= i < |layers| ensures !Defers(layers[i]) {
      if layers[i].index.Some? {
        assert layers[i].index == Some(layers[i].index.value);
      }
    }
    ConsumersDeliver(merge, buffer, layers);
  }

  // ---- when it does not deliver ----

  /** The selection an indexer run leaves in the first row. */
  function FirstRow<C, I>(merge: C -> I, x: Indexed<C, I>): I
    requires |x.packed| + |x.prefill| > 0
  {
    if x.packed != [] then merge(x.packed[0]) else x.prefill[0]
  }

  /** Telling contents: merging changes a deferring run's first row, and no two runs leave the
      same first row. */
  ghost predicate Telling<C, I>(merge: C -> I, layers: seq<Layer<C, I>>)
    requires Legal(layers)
  {
    && (forall i | 0 <= i < |layers| && Defers(layers[i]) ::
          layers[i].index.value.local[0] != FirstRow(merge, layers[i].index.value))
    && (forall i, j | 0 <= i < j < |layers| && layers[i].index.Some? && layers[j].index.Some? ::
          FirstRow(merge, layers[i].index.value) != FirstRow(merge, layers[j].index.value))
  }

  /** The set parked by some earlier run is not what the immediate path's buffer holds, or
      nothing has read the buffer since; and no run to come leaves the parked first row. */
  ghost predicate Stuck<C, I>(merge: C -> I, s: State<C, I>, buffer: seq<I>, mqaRows: nat, layers: seq<Layer<C, I>>)
    requires Legal(layers)
  {
    && s.pending.Some? && s.pending.value != [] && buffer != []
    && var first := merge(s.pending.value[0]);
    && (mqaRows == 0 || buffer[0] != first)
    && (layers != [] && layers[0].index.None? ==> layers[0].mqaRows == 0 || layers[0].mqaRows == mqaRows)
    && (forall i | 0 <= i < |layers| && layers[i].index.Some? :: FirstRow(merge, layers[i].index.value) != first)
  }

  lemma LegalTail<C, I>(layers: seq<Layer<C, I>>)
    requires Legal(layers) && layers != []
    ensures Legal(layers[1..])
  {
    var rest := layers[1..];
    forall i | 0 < i < |rest| && rest[i].index.None?
      ensures rest[i].mqaRows == 0 || rest[i].mqaRows == rest[i - 1].mqaRows
    {
      assert rest[i] == layers[i + 1] && rest[i - 1] == layers[i];
    }
  }

  lemma ReadsDiffer<C, I>(merge: C -> I, s: State<C, I>, buffer: seq<I>, layers: seq<Layer<C, I>>)
    requires layers != []
    ensures
      var t, now := LayerStep(merge, s, layers[0]), AfterRun(merge, buffer, layers[0]);
      t.None? || Read(t.value.buffer, layers[0].mqaRows) != Read(now, layers[0].mqaRows) ==>
        !Delivers(merge, s, buffer, layers)
  {
    var out := Deferred(merge, s, layers);
    var t, now := LayerStep(merge, s, layers[0]), AfterRun(merge, buffer, layers[0]);
    assert out.Some? ==> t.Some? && out.value.seen[0] == Read(t.value.buffer, layers[0].mqaRows);
    assert Immediate(merge, buffer, layers)[0] == Read(now, layers[0].mqaRows);
  }

  /** If the tail does not deliver, neither does the whole. */
  lemma TailDecides<C, I>(merge: C -> I, s: State<C, I>, buffer: seq<I>, layers: seq<Layer<C, I>>)
    requires layers != [] && LayerStep(merge, s, layers[0]).Some?
    requires !Delivers(merge, LayerStep(merge, s, layers[0]).value, AfterRun(merge, buffer, layers[0]), layers[1..])
    ensures !Delivers(merge, s, buffer, layers)
  {
    var t, now := LayerStep(merge, s, layers[0]).value, AfterRun(merge, buffer, layers[0]);
    var out, rest := Deferred(merge, s, layers), Deferred(merge, t, layers[1..]);
    assert out.Some? ==> rest.Some? && out.value.seen[1..] == rest.value.seen && out.value.left == rest.value.left;
    assert Immediate(merge, buffer, layers)[1..] == Immediate(merge, now, layers[1..]);
  }

  /** What stays parked too long is never delivered. */
  lemma {:induction false} StuckFails<C, I>(merge: C -> I, s: State<C, I>, buffer: seq<I>, mqaRows: nat,
                                            layers: seq<Layer<C, I>>)
    requires Legal(layers) && Stuck(merge, s, buffer, mqaRows, layers)
    ensures !Delivers(merge, s, buffer, layers)
    decreases |layers|
  {
    if layers != [] {
      var l := layers[0];
      ReadsDiffer(merge, s, buffer, layers);
      if LayerStep(merge, s, l).Some? && !Takes(l) {
        LegalTail(layers);
        StuckFails(merge, LayerStep(merge, s, l).value, AfterRun(merge, buffer, l), l.mqaRows, layers[1..]);
        TailDecides(merge, s, buffer, layers);
      }
    }
  }

  /** A deferring layer that does not consume its set spoils the trace. */
  lemma UnconsumedSpoils<C, I>(merge: C -> I, buffer: seq<I>, layers: seq<Layer<C, I>>)
    requires Legal(layers) && Telling(merge, layers) && layers != [] && Defers(layers[0]) && !Consumes(layers[0])
    ensures !Delivers(merge, State(buffer, None), buffer, layers)
  {
    var l, s := layers[0], State(buffer, None);
    ReadsDiffer(merge, s, buffer, layers);
    if l.mqaRows == 0 {
      LegalTail(layers);
      StuckFails(merge, LayerStep(merge, s, l).value, AfterRun(merge, buffer, l), 0, layers[1..]);
      TailDecides(merge, s, buffer, layers);
    } else if !Takes(l) {
      var t := LayerStep(merge, s, l).value;
      assert Read(t.buffer, l.mqaRows)[0] == l.index.value.local[0];
    }
  }

  /** With telling contents the deferred path delivers if and only if every deferring layer
      consumes its own set: no PCP, no replicated queries, and as many query rows as decode
      rows. */
  lemma {:induction false} DeferredIff<C, I>(merge: C -> I, buffer: seq<I>, layers: seq<Layer<C, I>>)
    requires Legal(layers) && Telling(merge, layers)
    ensures Delivers(merge, State(buffer, None), buffer, layers) <==>
            forall i, x | 0 <= i < |layers| && layers[i].index == Some(x) && x.packed != [] && !x.padded ::
              !layers[i].pcp && !layers[i].replicated && layers[i].mqaRows == |x.packed|
    decreases |layers|
  {
    if forall i | 0 <= i < |layers| && Defers(layers[i]) :: Consumes(layers[i]) {
      ConsumersDeliver(merge, buffer, layers);
    } else if Defers(layers[0]) && !Consumes(layers[0]) {
      UnconsumedSpoils(merge, buffer, layers);
    } else {
      LegalTail(layers);
      CleanStep(merge, buffer, layers[0]);
      DeferredIff(merge, AfterRun(merge, buffer, layers[0]), layers[1..]);
      TailDecides(merge, State(buffer, None), buffer, layers);
    }
  }

  /** The same layers as far as anything but their contents goes. */
  ghost predicate SameShapes<C, I>(a: seq<Layer<C, I>>, b: seq<Layer<C, I>>) {
    |a| == |b| && forall i | 0 <= i < |a| :: SameShape(a[i], b[i])
  }

  ghost predicate SameShape<C, I>(a: Layer<C, I>, b: Layer<C, I>) {
    && a.mqaRows == b.mqaRows && a.pcp == b.pcp && a.replicated == b.replicated
    && match (a.index, b.index)
       case (None, None) => true
       case (Some(x), Some(y)) =>
         |x.packed| == |y.packed| && |x.local| == |y.local| && |x.prefill| == |y.prefill| && x.padded == y.padded
       case _ => false
  }

  /** Layers of the same shapes whose i-th run leaves 2i merged and 2i + 1 before merging. */
  function Relabelled(layers: seq<Layer<int, int>>): (other: seq<Layer<int, int>>)
    ensures |other| == |layers|
  {
    seq(|layers|, i requires 0 <= i < |layers| => Relabel(layers[i], i))
  }

  function Relabel(l: Layer<int, int>, i: nat): Layer<int, int> {
    match l.index
    case None => l
    case Some(x) =>
      l.(index := Some(Indexed(seq(|x.packed|, _ => 2 * i), seq(|x.local|, _ => 2 * i + 1),
          seq(|x.prefill|, _ => 2 * i), x.padded)))
  }

  lemma RelabelledTells(layers: seq<Layer<int, int>>)
    requires Legal(layers)
    ensures SameShapes(layers, Relabelled(layers)) && Legal(Relabelled(layers)) && Telling(x => x, Relabelled(layers))
  {
    var other := Relabelled(layers);
    forall i | 0 <= i < |other| && other[i].index.Some?
      ensures LegalRun(other[i].index.value) && FirstRow(x => x, other[i].index.value) == 2 * i
    {
      assert LegalRun(layers[i].index.value);
    }
  }

  /** Whatever its contents may be, a trace of given shapes is delivered if and only if every
      deferring layer consumes its own set. */
  lemma DeliveredForAllContentsIff(layers: seq<Layer<int, int>>)
    requires Legal(layers)
    ensures (forall merge: int -> int, buffer: seq<int>, other: seq<Layer<int, int>> |
               Legal(other) && SameShapes(layers, other) ::
               Delivers(merge, State(buffer, None), buffer, other)) <==>
            forall i, x | 0 <= i < |layers| && layers[i].index == Some(x) && x.packed != [] && !x.padded ::
              !layers[i].pcp && !layers[i].replicated && layers[i].mqaRows == |x.packed|
  {
    if forall i | 0 <= i < |layers| && Defers(layers[i]) :: Consumes(layers[i]) {
      forall merge: int -> int, buffer: seq<int>, other: seq<Layer<int, int>> |
        Legal(other) && SameShapes(layers, other)
        ensures Delivers(merge, State(buffer, None), buffer, other)
      {
        forall i | 0 <= i < |other| && Defers(other[i]) ensures Consumes(other[i]) {
          assert SameShape(layers[i], other[i]);
        }
        ConsumersDeliver(merge, buffer, other);
      }
    } else {
      var i :| 0 <= i < |layers| && Defers(layers[i]) && !Consumes(layers[i]);
      var other := Relabelled(layers);
      RelabelledTells(layers);
      DeferredIff(x => x, [], other);
      assert Defers(other[i]) && !Consumes(other[i]);
    }
  }

  /** A mixed batch: the decode rows are deferred, but attention takes the prefill rows along.
      The deferred path fails where the immediate one reads every row. */
  lemma MixedBatchFails<C, I>(merge: C -> I, buffer: seq<I>, x: Indexed<C, I>, rest: seq<Layer<C, I>>)
    requires LegalRun(x) && !x.padded && x.packed != [] && x.prefill != []
    ensures
      var mixed := Layer(Some(x), |x.packed| + |x.prefill|, false, false);
      && Deferred(merge, State(buffer, None), [mixed] + rest) == None
      && Immediate(merge, buffer, [mixed] + rest)[0] == Merged(merge, x.packed) + x.prefill
  {
    var mixed := Layer(Some(x), |x.packed| + |x.prefill|, false, false);
    assert ([mixed] + rest)[0] == mixed;
  }

  /** A set that PCP, replicated queries or an empty query batch leave parked makes the next
      deferral fail. */
  lemma UnconsumedFails<C, I>(merge: C -> I, buffer: seq<I>, a: Layer<C, I>, b: Layer<C, I>, rest: seq<Layer<C, I>>)
    requires Defers(a) && !Takes(a) && Defers(b)
    ensures Deferred(merge, State(buffer, None), [a, b] + rest) == None
  {
    var layers := [a, b] + rest;
    assert layers[1..] == [b] + rest;
    assert layers[1..][0] == b;
  }

  /** The module-level hand-off slot and the selection buffer it writes into. */
  class PendingTopK<C, I> {
    var pending: Option<seq<C>>
    var buffer: seq<I>

    ghost function Abs(): State<C, I>
      reads this
    {
      State(buffer, pending)
    }

    constructor (buffer: seq<I>)
      ensures Abs() == State(buffer, None)
    {
      this.buffer, pending := buffer, None;
    }

    /** Park a candidate set; refused, with nothing changed, while one is parked. */
    method Defer(packed: seq<C>) returns (ok: bool)
      modifies this`pending
      ensures ok <==> old(pending).None?
      ensures pending == if ok then Some(packed) else old(pending)
    {
      ok := pending.None?;
      if ok {
        pending := Some(packed);
      }
    }

    /** Hand over the parked set, if any, and clear the slot. */
    method Take() returns (d: Option<seq<C>>)
      modifies this`pending
      ensures d == old(pending) && pending == None
    {
      d, pending := pending, None;
    }

    /** The indexer half of a layer; false when the slot is taken. */
    method RunIndexer(merge: C -> I, x: Indexed<C, I>) returns (ok: bool)
      modifies this
      ensures
        var s := IndexerStep(merge, old(Abs()), Layer(Some(x), 0, false, false));
        if s.None? then !ok else ok && Abs() == s.value
    {
      ok := true;
      if x.padded || x.packed == [] {
        buffer := Overwrite(buffer, Merged(merge, x.packed) + x.prefill);
      } else {
        buffer := Overwrite(buffer, x.local + x.prefill);
        ok := Defer(x.packed);
      }
    }

    /** One layer through the slot: the rows its attention reads, or None when the hand-off
        fails. */
    method RunLayer(merge: C -> I, l: Layer<C, I>) returns (read: Option<seq<I>>)
      modifies this
      ensures
        var s := LayerStep(merge, old(Abs()), l);
        if s.None? then read == None
        else Abs() == s.value && read == Some(Read(buffer, l.mqaRows))
    {
      if l.index.Some? {
        var ok := RunIndexer(merge, l.index.value);
        if !ok {
          return None;
        }
      }
      if l.mqaRows > 0 && !l.pcp && !l.replicated {
        var d := Take();
        if d.Some? {
          if |d.value| != l.mqaRows {
            return None;
          }
          buffer := Overwrite(buffer, Merged(merge, d.value));
        }
      }
      read := Some(Read(buffer, l.mqaRows));
    }
  }
}
