/** The draft-input preparation kernel: which cell each program instance stores to, with what,
    and why the order the instances run in does not matter. */
module PrepareInputs {

  import opened ModArith
  import opened Prelude
  import opened ParallelStores

  datatype Buffer =
    | InputIds | QueryPositions | QuerySlots
    | ContextPositions | ContextSlots
    | QueryStart | SeqLens
    | SampleIndices | SamplePositions | SampleMapping
    | Temperature | Seeds

  datatype Cell = Cell(buffer: Buffer, index: nat)

  type Stores = seq<Store<Cell, int>>

  /** The kernel's inputs. `queries` is the number of query tokens per request, `steps` the
      number of draft steps, `lanes` the lanes of an instance; sampling parameters are carried
      as integers, since they are only copied. */
  datatype Inputs = Inputs(
    idxMapping: seq<nat>, startLoc: seq<nat>, rejected: seq<nat>, sampled: seq<int>,
    lastSampled: seq<int>, nextPrefill: seq<int>, positions: seq<nat>, blockTable: seq<seq<nat>>,
    temperature: seq<int>, seeds: seq<int>,
    blockSize: nat, stride: nat, queries: nat, steps: nat,
    maxReqs: nat, maxTokens: nat, maxModelLen: nat, lanes: nat,
    maskToken: int, padSlot: int, fromAnchor: bool)
  {
    function Reqs(): nat { |idxMapping| }

    function SampleOff(): nat { if fromAnchor then 0 else 1 }

    /** Queries of a request that are sampled from. */
    function Samples(): int { queries - SampleOff() }

    /** What the batch layout promises: requests map to distinct states, each has its own
        stretch of the token batch and at least one token that was not rejected. */
    ghost predicate Valid() {
      && 1 <= Reqs() <= maxReqs
      && |startLoc| == Reqs() + 1 && |rejected| == Reqs() && |sampled| == Reqs() && |blockTable| == Reqs()
      && (forall r, q | 0 <= r < q < Reqs() :: idxMapping[r] != idxMapping[q])
      && (forall r | 0 <= r < Reqs() :: idxMapping[r] < maxReqs)
      && |temperature| == maxReqs && |seeds| == maxReqs && |lastSampled| == maxReqs && |nextPrefill| == maxReqs
      && (forall r, q | 0 <= r <= q <= Reqs() :: startLoc[r] <= startLoc[q])
      && startLoc[Reqs()] <= |positions|
      && (forall r | 0 <= r < Reqs() :: rejected[r] < NumCtx(r))
      && (forall r | 0 <= r < Reqs() :: |blockTable[r]| == stride)
      && blockSize > 0 && stride > 0 && lanes > 0
    }

    /** One query per draft step, plus the anchor where it is not sampled from. */
    ghost predicate QueriesMatchSteps() {
      Samples() == steps
    }

    /** Tokens of request r in this step's batch. */
    function NumCtx(r: nat): int
      requires r + 1 < |startLoc|
    {
      startLoc[r + 1] as int - startLoc[r] as int
    }

    /** Position of the last token of r that was not rejected. */
    function LastValid(r: nat): nat
      requires Valid() && r < Reqs()
    {
      assert startLoc[r] <= startLoc[r + 1] <= startLoc[Reqs()];
      positions[startLoc[r + 1] - rejected[r] - 1]
    }

    function Bonus(r: nat): int
      requires Valid() && r < Reqs()
    {
      if sampled[r] > 0 then lastSampled[idxMapping[r]] else nextPrefill[idxMapping[r]]
    }

    function QueryPos(r: nat, off: int): int
      requires Valid() && r < Reqs()
    {
      LastValid(r) + 1 + off
    }

    /** Cache slot of a position; a block number past the table is clamped into it. */
    function Slot(r: nat, pos: int): int
      requires Valid() && r < Reqs() && pos >= 0
    {
      var block := if pos / blockSize < stride - 1 then pos / blockSize else stride - 1;
      blockTable[r][block] * blockSize + pos % blockSize
    }

    /** Context position of lane j, 0 for a masked lane. */
    function CtxPos(r: nat, j: nat): nat
      requires Valid() && r < Reqs()
    {
      assert startLoc[r] <= startLoc[r + 1] <= startLoc[Reqs()];
      if j < NumCtx(r) then positions[startLoc[r] + j] else 0
    }

    /** The query the k-th sample of r is taken from. */
    function SampleIndex(r: nat, k: int): int {
      r * queries + k + SampleOff()
    }

    /** The position it predicts: the query's own, or the next one when sampling from the
        anchor. */
    function SamplePos(r: nat, k: int): int
      requires Valid() && r < Reqs()
    {
      QueryPos(r, k + SampleOff()) + if fromAnchor then 1 else 0
    }

    /** The value the owner of a cell stores there. */
    function Value(r: nat, c: Cell): int
      requires Valid() && r < Reqs()
    {
      var i := c.index;
      match c.buffer
      case InputIds => if i == r * queries then Bonus(r) else maskToken
      case QueryPositions => Min(QueryPos(r, i - r * queries), maxModelLen - 1)
      case QuerySlots =>
        if i < r * queries then 0
        else if i < r * queries + queries then Slot(r, QueryPos(r, i - r * queries))
        else padSlot
      case ContextPositions => if i < startLoc[r] then 0 else CtxPos(r, i - startLoc[r])
      case ContextSlots => if i < startLoc[r] then 0 else Slot(r, CtxPos(r, i - startLoc[r]))
      case QueryStart => if i == r then r * queries else Reqs() * queries
      case SeqLens => if i == r then LastValid(r) + 1 + queries else 0
      case SampleIndices => if i < r * steps + Samples() then SampleIndex(r, i - r * steps) else 0
      case SamplePositions => if i < r * steps + Samples() then SamplePos(r, i - r * steps) else 0
      case SampleMapping => if i < r * steps + Samples() then idxMapping[r] else -1
      case Temperature => temperature[idxMapping[r]]
      case Seeds => seeds[idxMapping[r]]
    }

    /** Whether lane j falls into instance b. */
    predicate Lane(b: nat, j: int) {
      b * lanes <= j < b * lanes + lanes
    }

    ghost predicate OwnsContext(r: nat, b: nat, c: Cell)
      requires Valid() && r < Reqs()
    {
      && (c.buffer.ContextPositions? || c.buffer.ContextSlots?)
      && startLoc[r] <= c.index < startLoc[r + 1]
      && Lane(b, c.index - startLoc[r])
    }

    ghost predicate OwnsQuery(r: nat, b: nat, c: Cell)
      requires Valid() && r < Reqs()
    {
      && (c.buffer.InputIds? || c.buffer.QueryPositions? || c.buffer.QuerySlots?)
      && r * queries <= c.index < r * queries + queries
      && Lane(b, NumCtx(r) + c.index - r * queries)
    }

    ghost predicate OwnsSample(r: nat, b: nat, c: Cell)
      requires Valid() && r < Reqs()
    {
      && (c.buffer.SampleIndices? || c.buffer.SamplePositions? || c.buffer.SampleMapping?)
      && r * steps <= c.index < r * steps + Samples()
      && Lane(b, NumCtx(r) + SampleOff() + c.index - r * steps)
    }

    /** Per-request scalars, stored by the first instance of the request. */
    ghost predicate OwnsHead(r: nat, b: nat, c: Cell)
      requires Valid() && r < Reqs()
    {
      && b == 0
      && match c.buffer
         case QueryStart | SeqLens => c.index == r
         case Temperature | Seeds => c.index == idxMapping[r]
         case _ => false
    }

    /** Padding, stored by the first instance of the last request. */
    ghost predicate OwnsPad(r: nat, b: nat, c: Cell)
      requires Valid() && r < Reqs()
    {
      && b == 0 && r == Reqs() - 1
      && match c.buffer
         case QueryStart => Reqs() <= c.index < maxReqs + 1
         case SeqLens => Reqs() <= c.index < maxReqs
         case SampleIndices | SamplePositions | SampleMapping => Reqs() * steps <= c.index < maxReqs * steps
         case QuerySlots => Reqs() * queries <= c.index < maxTokens
         case _ => false
    }

    /** The cells instance (r, b) stores to. */
    ghost predicate Owns(r: nat, b: nat, c: Cell)
      requires Valid() && r < Reqs()
    {
      OwnsContext(r, b, c) || OwnsQuery(r, b, c) || OwnsSample(r, b, c) || OwnsHead(r, b, c) || OwnsPad(r, b, c)
    }
  }

  // ---- one instance ----

  /** A masked vector store of n lanes to consecutive cells. */
  function MaskedStore(buffer: Buffer, base: int, n: nat, mask: nat -> bool, value: nat -> int): Stores
    requires forall l: nat | l < n && mask(l) :: base + l >= 0
  {
    if n == 0 then []
    else
      MaskedStore(buffer, base, n - 1, mask, value) +
      if mask(n - 1) then [Store(Cell(buffer, base + n - 1), value(n - 1))] else []
  }

  lemma CountOneMore(before: Stores, s: Store<Cell, int>, c: Cell)
    ensures Count(before + [s], c) == Count(before, c) + if s.at == c then 1 else 0
  {
    assert (before + [s])[..|before|] == before;
  }

  lemma {:induction false} MaskedCount(buffer: Buffer, base: int, n: nat, mask: nat -> bool, value: nat -> int, c: Cell)
    requires forall l: nat | l < n && mask(l) :: base + l >= 0
    ensures
      Count(MaskedStore(buffer, base, n, mask, value), c) ==
      if c.buffer == buffer && 0 <= c.index - base < n && mask(c.index - base) then 1 else 0
  {
    if n > 0 {
      MaskedCount(buffer, base, n - 1, mask, value, c);
      var before := MaskedStore(buffer, base, n - 1, mask, value);
      if mask(n - 1) {
        CountOneMore(before, Store(Cell(buffer, base + n - 1), value(n - 1)), c);
      } else {
        assert before + [] == before;
      }
    }
  }

  lemma {:induction false} MaskedValue(buffer: Buffer, base: int, n: nat, mask: nat -> bool, value: nat -> int,
      s: Store<Cell, int>)
    requires forall l: nat | l < n && mask(l) :: base + l >= 0
    requires s in MaskedStore(buffer, base, n, mask, value)
    ensures s.at.buffer == buffer && 0 <= s.at.index - base < n && mask(s.at.index - base) &&
            s.value == value(s.at.index - base)
  {
    if n > 0 && s in MaskedStore(buffer, base, n - 1, mask, value) {
      MaskedValue(buffer, base, n - 1, mask, value, s);
    }
  }

  /** The stores hit the named cells once each, nothing else, with the right values. */
  ghost predicate Writes(stores: Stores, owns: Cell -> bool, want: Cell -> int) {
    && (forall c :: Count(stores, c) == if owns(c) then 1 else 0)
    && (forall s | s in stores :: s.value == want(s.at))
  }

  ghost function ValueOf(inp: Inputs, r: nat): Cell -> int
    requires inp.Valid() && r < inp.Reqs()
  {
    (c: Cell) => inp.Value(r, c)
  }

  lemma MaskedWrites(buffer: Buffer, base: int, n: nat, mask: nat -> bool, value: nat -> int, owns: Cell -> bool,
      want: Cell -> int)
    requires forall l: nat | l < n && mask(l) :: base + l >= 0 && value(l) == want(Cell(buffer, base + l))
    requires forall c :: owns(c) <==> c.buffer == buffer && 0 <= c.index - base < n && mask(c.index - base)
    ensures Writes(MaskedStore(buffer, base, n, mask, value), owns, want)
  {
    var stores := MaskedStore(buffer, base, n, mask, value);
    forall c ensures Count(stores, c) == if owns(c) then 1 else 0 {
      MaskedCount(buffer, base, n, mask, value, c);
    }
    forall s | s in stores ensures s.value == want(s.at) {
      MaskedValue(buffer, base, n, mask, value, s);
    }
  }

  function Either(p: Cell -> bool, q: Cell -> bool): Cell -> bool {
    (c: Cell) => p(c) || q(c)
  }

  /** The cells of one buffer among those a predicate names. */
  function Of(owns: Cell -> bool, buffer: Buffer): Cell -> bool {
    (c: Cell) => c.buffer == buffer && owns(c)
  }

  lemma WritesAppend(a: Stores, ownsA: Cell -> bool, b: Stores, ownsB: Cell -> bool, want: Cell -> int)
    requires Writes(a, ownsA, want) && Writes(b, ownsB, want)
    requires forall c :: !(ownsA(c) && ownsB(c))
    ensures Writes(a + b, Either(ownsA, ownsB), want)
  {
    forall c ensures Count(a + b, c) == if ownsA(c) || ownsB(c) then 1 else 0 {
      CountAppend(a, b, c);
    }
  }

  lemma SameCells(stores: Stores, p: Cell -> bool, q: Cell -> bool, want: Cell -> int)
    requires Writes(stores, p, want) && forall c :: p(c) <==> q(c)
    ensures Writes(stores, q, want)
  {
  }

  lemma TwoParts(p: Cell -> bool, a: Stores, q: Cell -> bool, b: Stores, owns: Cell -> bool, want: Cell -> int)
    requires Writes(a, p, want) && Writes(b, q, want)
    requires forall c :: !(p(c) && q(c))
    requires forall c :: owns(c) <==> p(c) || q(c)
    ensures Writes(a + b, owns, want)
  {
    WritesAppend(a, p, b, q, want);
    SameCells(a + b, Either(p, q), owns, want);
  }

  lemma ThreeParts(p: Cell -> bool, a: Stores, q: Cell -> bool, b: Stores, t: Cell -> bool, d: Stores,
      owns: Cell -> bool, want: Cell -> int)
    requires Writes(a, p, want) && Writes(b, q, want) && Writes(d, t, want)
    requires forall c :: !(p(c) && q(c)) && !(p(c) && t(c)) && !(q(c) && t(c))
    requires forall c :: owns(c) <==> p(c) || q(c) || t(c)
    ensures Writes(a + b + d, owns, want)
  {
    WritesAppend(a, p, b, q, want);
    TwoParts(Either(p, q), a + b, t, d, owns, want);
  }

  ghost function ContextCells(inp: Inputs, r: nat, b: nat): Cell -> bool
    requires inp.Valid() && r < inp.Reqs()
  {
    (c: Cell) => inp.OwnsContext(r, b, c)
  }

  ghost function QueryCells(inp: Inputs, r: nat, b: nat): Cell -> bool
    requires inp.Valid() && r < inp.Reqs()
  {
    (c: Cell) => inp.OwnsQuery(r, b, c)
  }

  ghost function SampleCells(inp: Inputs, r: nat, b: nat): Cell -> bool
    requires inp.Valid() && r < inp.Reqs()
  {
    (c: Cell) => inp.OwnsSample(r, b, c)
  }

  ghost function HeadCells(inp: Inputs, r: nat, b: nat): Cell -> bool
    requires inp.Valid() && r < inp.Reqs()
  {
    (c: Cell) => inp.OwnsHead(r, b, c)
  }

  ghost function PadCells(inp: Inputs, r: nat, b: nat): Cell -> bool
    requires inp.Valid() && r < inp.Reqs()
  {
    (c: Cell) => inp.OwnsPad(r, b, c)
  }

  /** One store of context lanes; `value` is given by the lane's offset into the context. */
  method ContextStore(inp: Inputs, r: nat, b: nat, buffer: Buffer, value: nat -> int,
      ghost want: Cell -> int) returns (stores: Stores)
    requires inp.Valid() && r < inp.Reqs() && (buffer.ContextPositions? || buffer.ContextSlots?)
    requires forall j: nat | j < inp.NumCtx(r) :: value(j) == want(Cell(buffer, inp.startLoc[r] + j))
    ensures Writes(stores, Of(ContextCells(inp, r, b), buffer), want)
  {
    var start, numCtx, first: nat := inp.startLoc[r], inp.NumCtx(r), b * inp.lanes;
    var isCtx := (l: nat) => first + l < numCtx;
    var lane := (l: nat) => value(first + l);
    stores := MaskedStore(buffer, start + first, inp.lanes, isCtx, lane);
    forall l: nat | l < inp.lanes && isCtx(l) ensures lane(l) == want(Cell(buffer, start + first + l)) {
      assert start + first + l == start + (first + l);
    }
    MaskedWrites(buffer, start + first, inp.lanes, isCtx, lane, Of(ContextCells(inp, r, b), buffer), want);
  }

  /** One store of query lanes; `value` is given by the query offset. */
  method QueryStore(inp: Inputs, r: nat, b: nat, buffer: Buffer, value: nat -> int,
      ghost want: Cell -> int) returns (stores: Stores)
    requires inp.Valid() && r < inp.Reqs() && (buffer.InputIds? || buffer.QueryPositions? || buffer.QuerySlots?)
    requires forall off: nat | off < inp.queries :: value(off) == want(Cell(buffer, r * inp.queries + off))
    ensures Writes(stores, Of(QueryCells(inp, r, b), buffer), want)
  {
    var numCtx, first: nat, queryBase := inp.NumCtx(r), b * inp.lanes, r * inp.queries;
    var base := queryBase + first - numCtx;
    var isQuery := (l: nat) => numCtx <= first + l < numCtx + inp.queries;
    var lane := (l: nat) => if first + l < numCtx then 0 else value(first + l - numCtx);
    stores := MaskedStore(buffer, base, inp.lanes, isQuery, lane);
    forall l: nat | l < inp.lanes && isQuery(l) ensures base + l >= 0 && lane(l) == want(Cell(buffer, base + l)) {
      assert base + l == queryBase + (first + l - numCtx);
    }
    MaskedWrites(buffer, base, inp.lanes, isQuery, lane, Of(QueryCells(inp, r, b), buffer), want);
  }

  /** One store of the query lanes that are sampled from; `value` is given by the sample number. */
  method SampleStore(inp: Inputs, r: nat, b: nat, buffer: Buffer, value: nat -> int,
      ghost want: Cell -> int) returns (stores: Stores)
    requires inp.Valid() && r < inp.Reqs() &&
             (buffer.SampleIndices? || buffer.SamplePositions? || buffer.SampleMapping?)
    requires forall k: nat | k < inp.Samples() :: value(k) == want(Cell(buffer, r * inp.steps + k))
    ensures Writes(stores, Of(SampleCells(inp, r, b), buffer), want)
  {
    var skip, first: nat, sampleBase := inp.NumCtx(r) + inp.SampleOff(), b * inp.lanes, r * inp.steps;
    var base := sampleBase + first - skip;
    var isSample := (l: nat) => skip <= first + l < inp.NumCtx(r) + inp.queries;
    var lane := (l: nat) => if first + l < skip then 0 else value(first + l - skip);
    stores := MaskedStore(buffer, base, inp.lanes, isSample, lane);
    forall l: nat | l < inp.lanes && isSample(l) ensures base + l >= 0 && lane(l) == want(Cell(buffer, base + l)) {
      assert base + l == sampleBase + (first + l - skip);
    }
    MaskedWrites(buffer, base, inp.lanes, isSample, lane, Of(SampleCells(inp, r, b), buffer), want);
  }

  /** Context positions and their cache slots. */
  method ContextStores(inp: Inputs, r: nat, b: nat) returns (stores: Stores)
    requires inp.Valid() && r < inp.Reqs()
    ensures Writes(stores, ContextCells(inp, r, b), ValueOf(inp, r))
  {
    var positions := ContextStore(inp, r, b, ContextPositions, (j: nat) => inp.CtxPos(r, j), ValueOf(inp, r));
    var slots := ContextStore(inp, r, b, ContextSlots, (j: nat) => inp.Slot(r, inp.CtxPos(r, j)), ValueOf(inp, r));
    stores := positions + slots;
    ghost var owns := ContextCells(inp, r, b);
    TwoParts(Of(owns, ContextPositions), positions, Of(owns, ContextSlots), slots, owns, ValueOf(inp, r));
  }

  /** Draft input ids, positions and cache slots. */
  method QueryStores(inp: Inputs, r: nat, b: nat) returns (stores: Stores)
    requires inp.Valid() && r < inp.Reqs()
    ensures Writes(stores, QueryCells(inp, r, b), ValueOf(inp, r))
  {
    var ids := QueryStore(inp, r, b, InputIds,
        (off: nat) => if off == 0 then inp.Bonus(r) else inp.maskToken, ValueOf(inp, r));
    var positions := QueryStore(inp, r, b, QueryPositions,
        (off: nat) => Min(inp.QueryPos(r, off), inp.maxModelLen - 1), ValueOf(inp, r));
    var slots := QueryStore(inp, r, b, QuerySlots, (off: nat) => inp.Slot(r, inp.QueryPos(r, off)), ValueOf(inp, r));
    stores := ids + positions + slots;
    ghost var owns := QueryCells(inp, r, b);
    ThreeParts(Of(owns, InputIds), ids, Of(owns, QueryPositions), positions, Of(owns, QuerySlots), slots, owns,
        ValueOf(inp, r));
  }

  /** Where to sample, at which position, and for which request. */
  method SampleStores(inp: Inputs, r: nat, b: nat) returns (stores: Stores)
    requires inp.Valid() && r < inp.Reqs()
    ensures Writes(stores, SampleCells(inp, r, b), ValueOf(inp, r))
  {
    var indices := SampleStore(inp, r, b, SampleIndices, (k: nat) => inp.SampleIndex(r, k), ValueOf(inp, r));
    var positions := SampleStore(inp, r, b, SamplePositions, (k: nat) => inp.SamplePos(r, k), ValueOf(inp, r));
    var mapping := SampleStore(inp, r, b, SampleMapping, (k: nat) => inp.idxMapping[r], ValueOf(inp, r));
    stores := indices + positions + mapping;
    ghost var owns := SampleCells(inp, r, b);
    ThreeParts(Of(owns, SampleIndices), indices, Of(owns, SamplePositions), positions, Of(owns, SampleMapping),
        mapping, owns, ValueOf(inp, r));
  }

  function Just(at: Cell): Cell -> bool {
    (c: Cell) => c == at
  }

  /** One store to one cell. */
  lemma ScalarWrites(s: Store<Cell, int>, want: Cell -> int)
    requires s.value == want(s.at)
    ensures Writes([s], Just(s.at), want)
  {
    assert [s][..0] == [];
    forall c ensures Count([s], c) == if c == s.at then 1 else 0 {
    }
  }

  method HeadStores(inp: Inputs, r: nat) returns (stores: Stores)
    requires inp.Valid() && r < inp.Reqs()
    ensures Writes(stores, HeadCells(inp, r, 0), ValueOf(inp, r))
  {
    var state := inp.idxMapping[r];
    var start, len := Cell(QueryStart, r), Cell(SeqLens, r);
    var temperature, seed := Cell(Temperature, state), Cell(Seeds, state);
    var a, d := Store(start, r * inp.queries), Store(len, inp.LastValid(r) + 1 + inp.queries);
    var e, f := Store(temperature, inp.temperature[state]), Store(seed, inp.seeds[state]);
    stores := [a] + [d] + [e] + [f];
    FourScalars(a, d, e, f, HeadCells(inp, r, 0), ValueOf(inp, r));
  }

  lemma FourScalars(a: Store<Cell, int>, b: Store<Cell, int>, d: Store<Cell, int>, e: Store<Cell, int>,
      owns: Cell -> bool, want: Cell -> int)
    requires a.value == want(a.at) && b.value == want(b.at) && d.value == want(d.at) && e.value == want(e.at)
    requires a.at != b.at && a.at != d.at && a.at != e.at && b.at != d.at && b.at != e.at && d.at != e.at
    requires forall c :: owns(c) <==> c == a.at || c == b.at || c == d.at || c == e.at
    ensures Writes([a] + [b] + [d] + [e], owns, want)
  {
    ScalarWrites(a, want);
    ScalarWrites(b, want);
    ScalarWrites(d, want);
    ScalarWrites(e, want);
    var two, three := Either(Just(a.at), Just(b.at)), Either(Either(Just(a.at), Just(b.at)), Just(d.at));
    WritesAppend([a], Just(a.at), [b], Just(b.at), want);
    WritesAppend([a] + [b], two, [d], Just(d.at), want);
    WritesAppend([a] + [b] + [d], three, [e], Just(e.at), want);
    SameCells([a] + [b] + [d] + [e], Either(three, Just(e.at)), owns, want);
  }

  function Stretch(buffer: Buffer, lo: int, hi: int): Cell -> bool {
    (c: Cell) => c.buffer == buffer && lo <= c.index < hi
  }

  /** A padding loop: the cells lo to hi of one buffer, a vector of lanes at a time. */
  method PadLoop(inp: Inputs, r: nat, buffer: Buffer, lo: nat, hi: nat, value: int) returns (stores: Stores)
    requires inp.Valid() && r < inp.Reqs()
    requires forall i: nat | lo <= i < hi :: inp.Value(r, Cell(buffer, i)) == value
    ensures Writes(stores, Stretch(buffer, lo, hi), ValueOf(inp, r))
  {
    var i := lo;
    stores := [];
    while i < hi
      invariant lo <= i
      invariant Writes(stores, Stretch(buffer, lo, Min(i, hi)), ValueOf(inp, r))
    {
      var mask := (l: nat) => i + l < hi;
      var fill := (l: nat) => value;
      var chunk := MaskedStore(buffer, i, inp.lanes, mask, fill);
      var next := i + inp.lanes;
      MaskedWrites(buffer, i, inp.lanes, mask, fill, Stretch(buffer, i, Min(next, hi)), ValueOf(inp, r));
      WritesAppend(stores, Stretch(buffer, lo, Min(i, hi)), chunk, Stretch(buffer, i, Min(next, hi)), ValueOf(inp, r));
      SameCells(stores + chunk, Either(Stretch(buffer, lo, Min(i, hi)), Stretch(buffer, i, Min(next, hi))),
          Stretch(buffer, lo, Min(next, hi)), ValueOf(inp, r));
      stores := stores + chunk;
      i := next;
    }
  }

  /** What the padding loops need to know: past the requests' own cells only padding is due. */
  ghost predicate OnlyPadding(inp: Inputs)
    requires inp.Valid()
  {
    var r := inp.Reqs() - 1;
    && (forall i: nat | i >= inp.Reqs() * inp.steps :: inp.Value(r, Cell(SampleIndices, i)) == 0)
    && (forall i: nat | i >= inp.Reqs() * inp.steps :: inp.Value(r, Cell(SamplePositions, i)) == 0)
    && (forall i: nat | i >= inp.Reqs() * inp.steps :: inp.Value(r, Cell(SampleMapping, i)) == -1)
    && (forall i: nat | i >= inp.Reqs() * inp.queries :: inp.Value(r, Cell(QuerySlots, i)) == inp.padSlot)
  }

  lemma PaddingBeyondRequests(inp: Inputs)
    requires inp.Valid() && inp.QueriesMatchSteps()
    ensures OnlyPadding(inp)
  {
    LastBlock(inp.Reqs() - 1, inp.queries);
    LastBlock(inp.Reqs() - 1, inp.steps);
  }

  method PadBuffer(inp: Inputs, buffer: Buffer, lo: nat, hi: nat, value: int) returns (stores: Stores)
    requires inp.Valid()
    requires forall i: nat | lo <= i < hi :: inp.Value(inp.Reqs() - 1, Cell(buffer, i)) == value
    requires forall i: nat :: inp.OwnsPad(inp.Reqs() - 1, 0, Cell(buffer, i)) <==> lo <= i < hi
    ensures Writes(stores, OfAll(PadCells(inp, inp.Reqs() - 1, 0), {buffer}), ValueOf(inp, inp.Reqs() - 1))
  {
    var r := inp.Reqs() - 1;
    stores := PadLoop(inp, r, buffer, lo, hi, value);
    forall c ensures Stretch(buffer, lo, hi)(c) <==> OfAll(PadCells(inp, r, 0), {buffer})(c) {
      if c.buffer == buffer {
        assert c == Cell(buffer, c.index);
      }
    }
    SameCells(stores, Stretch(buffer, lo, hi), OfAll(PadCells(inp, r, 0), {buffer}), ValueOf(inp, r));
  }

  /** Padded samples read query 0 and map to no request. */
  method SamplePads(inp: Inputs) returns (indices: Stores, positions: Stores, mapping: Stores)
    requires inp.Valid() && OnlyPadding(inp)
    ensures Writes(indices, OfAll(PadCells(inp, inp.Reqs() - 1, 0), {SampleIndices}), ValueOf(inp, inp.Reqs() - 1))
    ensures Writes(positions, OfAll(PadCells(inp, inp.Reqs() - 1, 0), {SamplePositions}), ValueOf(inp, inp.Reqs() - 1))
    ensures Writes(mapping, OfAll(PadCells(inp, inp.Reqs() - 1, 0), {SampleMapping}), ValueOf(inp, inp.Reqs() - 1))
  {
    var lo, hi := inp.Reqs() * inp.steps, inp.maxReqs * inp.steps;
    indices := PadBuffer(inp, SampleIndices, lo, hi, 0);
    positions := PadBuffer(inp, SamplePositions, lo, hi, 0);
    mapping := PadBuffer(inp, SampleMapping, lo, hi, -1);
  }

  /** Padding up to the captured maximum, so that a replayed graph never reads stale cells. */
  method PadStores(inp: Inputs) returns (stores: Stores)
    requires inp.Valid() && OnlyPadding(inp)
    ensures Writes(stores, PadCells(inp, inp.Reqs() - 1, 0), ValueOf(inp, inp.Reqs() - 1))
  {
    var reqs := inp.Reqs();
    var starts := PadBuffer(inp, QueryStart, reqs, inp.maxReqs + 1, reqs * inp.queries);
    var lens := PadBuffer(inp, SeqLens, reqs, inp.maxReqs, 0);
    var indices, positions, mapping := SamplePads(inp);
    var slots := PadBuffer(inp, QuerySlots, reqs * inp.queries, inp.maxTokens, inp.padSlot);
    stores := starts + lens + indices + positions + mapping + slots;
    SixBuffers(PadCells(inp, reqs - 1, 0), starts, lens, indices, positions, mapping, slots, ValueOf(inp, reqs - 1));
  }

  lemma SixBuffers(owns: Cell -> bool, a: Stores, b: Stores, d: Stores, e: Stores, f: Stores, g: Stores,
      want: Cell -> int)
    requires Writes(a, OfAll(owns, {QueryStart}), want) && Writes(b, OfAll(owns, {SeqLens}), want)
    requires Writes(d, OfAll(owns, {SampleIndices}), want) && Writes(e, OfAll(owns, {SamplePositions}), want)
    requires Writes(f, OfAll(owns, {SampleMapping}), want) && Writes(g, OfAll(owns, {QuerySlots}), want)
    requires forall c | owns(c) ::
               c.buffer in {QueryStart, SeqLens, SampleIndices, SamplePositions, SampleMapping} + {QuerySlots}
    ensures Writes(a + b + d + e + f + g, owns, want)
  {
    var two := {QueryStart} + {SeqLens};
    var three := two + {SampleIndices};
    var four := three + {SamplePositions};
    var five := four + {SampleMapping};
    BuffersAppend(owns, {QueryStart}, a, {SeqLens}, b, want);
    BuffersAppend(owns, two, a + b, {SampleIndices}, d, want);
    BuffersAppend(owns, three, a + b + d, {SamplePositions}, e, want);
    BuffersAppend(owns, four, a + b + d + e, {SampleMapping}, f, want);
    BuffersAppend(owns, five, a + b + d + e + f, {QuerySlots}, g, want);
    SameCells(a + b + d + e + f + g, OfAll(owns, five + {QuerySlots}), owns, want);
  }

  /** The cells of some buffers among those a predicate names. */
  ghost function OfAll(owns: Cell -> bool, buffers: set<Buffer>): Cell -> bool {
    (c: Cell) => c.buffer in buffers && owns(c)
  }

  lemma BuffersAppend(owns: Cell -> bool, xs: set<Buffer>, a: Stores, ys: set<Buffer>, b: Stores, want: Cell -> int)
    requires xs !! ys && Writes(a, OfAll(owns, xs), want) && Writes(b, OfAll(owns, ys), want)
    ensures Writes(a + b, OfAll(owns, xs + ys), want)
  {
    TwoParts(OfAll(owns, xs), a, OfAll(owns, ys), b, OfAll(owns, xs + ys), want);
  }

  lemma LastBlock(r: nat, n: nat)
    ensures (r + 1) * n == r * n + n
  {
  }

  /** All stores of program instance (r, b): exactly the cells it owns, each once, with the
      values they must get. */
  method KernelInstance(inp: Inputs, r: nat, b: nat) returns (stores: Stores)
    requires inp.Valid() && inp.QueriesMatchSteps() && r < inp.Reqs()
    ensures Issues(inp, r, b, stores)
  {
    var context := ContextStores(inp, r, b);
    var query := QueryStores(inp, r, b);
    var sample := SampleStores(inp, r, b);
    var head, pad := [], [];
    if b == 0 {
      head := HeadStores(inp, r);
      if r == inp.Reqs() - 1 {
        PaddingBeyondRequests(inp);
        pad := PadStores(inp);
      }
    }
    stores := context + query + sample + head + pad;
    NoStores(HeadCells(inp, r, b), ValueOf(inp, r));
    NoStores(PadCells(inp, r, b), ValueOf(inp, r));
    InstanceParts(inp, r, b, context, query, sample, head, pad);
  }

  lemma NoStores(owns: Cell -> bool, want: Cell -> int)
    ensures (forall c :: !owns(c)) ==> Writes([], owns, want)
  {
  }

  ghost predicate Issues(inp: Inputs, r: nat, b: nat, stores: Stores)
    requires inp.Valid() && r < inp.Reqs()
  {
    && (forall c :: Count(stores, c) == if inp.Owns(r, b, c) then 1 else 0)
    && (forall s | s in stores :: s.value == inp.Value(r, s.at))
  }

  /** The five groups of an instance do not overlap. */
  lemma GroupsDisjoint(inp: Inputs, r: nat, b: nat, c: Cell)
    requires inp.Valid() && inp.QueriesMatchSteps() && r < inp.Reqs()
    ensures inp.OwnsQuery(r, b, c) ==> !inp.OwnsContext(r, b, c)
    ensures inp.OwnsSample(r, b, c) ==> !inp.OwnsContext(r, b, c) && !inp.OwnsQuery(r, b, c)
    ensures inp.OwnsHead(r, b, c) ==> !inp.OwnsContext(r, b, c) && !inp.OwnsQuery(r, b, c) && !inp.OwnsSample(r, b, c)
    ensures inp.OwnsPad(r, b, c) ==>
              !inp.OwnsContext(r, b, c) && !inp.OwnsQuery(r, b, c) && !inp.OwnsSample(r, b, c) && !inp.OwnsHead(r, b, c)
  {
    LastBlock(r, inp.queries);
    LastBlock(r, inp.steps);
  }

  lemma InstanceParts(inp: Inputs, r: nat, b: nat, context: Stores, query: Stores, sample: Stores, head: Stores,
      pad: Stores)
    requires inp.Valid() && inp.QueriesMatchSteps() && r < inp.Reqs()
    requires Writes(context, ContextCells(inp, r, b), ValueOf(inp, r)) &&
             Writes(query, QueryCells(inp, r, b), ValueOf(inp, r))
    requires Writes(sample, SampleCells(inp, r, b), ValueOf(inp, r)) &&
             Writes(head, HeadCells(inp, r, b), ValueOf(inp, r))
    requires Writes(pad, PadCells(inp, r, b), ValueOf(inp, r))
    ensures Issues(inp, r, b, context + query + sample + head + pad)
  {
    var p, q, t, u, v := ContextCells(inp, r, b), QueryCells(inp, r, b), SampleCells(inp, r, b), HeadCells(inp, r, b),
        PadCells(inp, r, b);
    forall c
      ensures (q(c) ==> !p(c)) && (t(c) ==> !p(c) && !q(c)) && (u(c) ==> !p(c) && !q(c) && !t(c))
      ensures v(c) ==> !p(c) && !q(c) && !t(c) && !u(c)
    {
      GroupsDisjoint(inp, r, b, c);
    }
    FiveParts(p, context, q, query, t, sample, u, head, v, pad, c => inp.Owns(r, b, c), ValueOf(inp, r));
  }

  lemma FiveParts(p: Cell -> bool, a: Stores, q: Cell -> bool, b: Stores, t: Cell -> bool, d: Stores,
                  u: Cell -> bool, e: Stores, v: Cell -> bool, f: Stores, owns: Cell -> bool, want: Cell -> int)
    requires Writes(a, p, want) && Writes(b, q, want) && Writes(d, t, want) && Writes(e, u, want) && Writes(f, v, want)
    requires forall c :: q(c) ==> !p(c)
    requires forall c :: t(c) ==> !p(c) && !q(c)
    requires forall c :: u(c) ==> !p(c) && !q(c) && !t(c)
    requires forall c :: v(c) ==> !p(c) && !q(c) && !t(c) && !u(c)
    requires forall c :: owns(c) <==> p(c) || q(c) || t(c) || u(c) || v(c)
    ensures Writes(a + b + d + e + f, owns, want)
  {
    var two := Either(p, q);
    var three := Either(two, t);
    var four := Either(three, u);
    WritesAppend(a, p, b, q, want);
    WritesAppend(a + b, two, d, t, want);
    WritesAppend(a + b + d, three, e, u, want);
    TwoParts(four, a + b + d + e, v, f, owns, want);
  }

  // ---- the whole launch ----

  /** The grid covers every request's lanes. */
  ghost predicate Covers(inp: Inputs, blocks: nat)
    requires inp.Valid()
  {
    forall r | 0 <= r < inp.Reqs() :: inp.NumCtx(r) + inp.queries <= blocks * inp.lanes
  }

  function MaxOf(xs: seq<nat>): (m: nat)
    ensures forall x | x in xs :: x <= m
  {
    if xs == [] then 0
    else
      var m := MaxOf(xs[1..]);
      assert xs == [xs[0]] + xs[1..];
      if xs[0] > m then xs[0] else m
  }

  /** The launch grid: the longest span of any request, rounded up to whole vectors. */
  function GridBlocks(inp: Inputs): nat
    requires inp.Valid()
  {
    (MaxOf(seq(inp.Reqs(), r requires 0 <= r < inp.Reqs() => inp.startLoc[r + 1] - inp.startLoc[r])) + inp.queries +
        inp.lanes - 1) / inp.lanes
  }

  lemma GridCovers(inp: Inputs)
    requires inp.Valid()
    ensures Covers(inp, GridBlocks(inp))
  {
    var lens: seq<nat> := seq(inp.Reqs(), r requires 0 <= r < inp.Reqs() => inp.startLoc[r + 1] - inp.startLoc[r]);
    CeilCovers(MaxOf(lens) + inp.queries, inp.lanes);
    forall r | 0 <= r < inp.Reqs() ensures inp.NumCtx(r) <= MaxOf(lens) {
      assert lens[r] in lens;
    }
  }

  lemma CeilCovers(n: nat, lanes: nat)
    requires lanes > 0
    ensures n <= (n + lanes - 1) / lanes * lanes
  {
    var q, m := (n + lanes - 1) / lanes, (n + lanes - 1) % lanes;
    assert n + lanes - 1 == q * lanes + m;
  }

  /** The cells the launch must fill. */
  ghost predicate Due(inp: Inputs, c: Cell)
    requires inp.Valid()
  {
    match c.buffer
    case InputIds | QueryPositions => c.index < inp.Reqs() * inp.queries
    case QuerySlots => c.index < inp.Reqs() * inp.queries || c.index < inp.maxTokens
    case ContextPositions | ContextSlots => inp.startLoc[0] <= c.index < inp.startLoc[inp.Reqs()]
    case QueryStart => c.index <= inp.maxReqs
    case SeqLens => c.index < inp.maxReqs
    case SampleIndices | SamplePositions | SampleMapping => c.index < inp.maxReqs * inp.steps
    case Temperature | Seeds => c.index in inp.idxMapping
  }

  lemma BlocksApart(r: nat, q: nat, n: nat, i: int)
    ensures r * n <= i < r * n + n && q * n <= i < q * n + n ==> r == q
  {
    if r * n <= i < r * n + n && q * n <= i < q * n + n {
      QuotientUnique(n, r, i - r * n, q, i - q * n);
    }
  }

  lemma StretchesApart(inp: Inputs, r: nat, q: nat, i: nat)
    requires inp.Valid() && r < inp.Reqs() && q < inp.Reqs()
    ensures inp.startLoc[r] <= i < inp.startLoc[r + 1] && inp.startLoc[q] <= i < inp.startLoc[q + 1] ==> r == q
  {
    if r < q {
      assert inp.startLoc[r + 1] <= inp.startLoc[q];
    } else if q < r {
      assert inp.startLoc[q + 1] <= inp.startLoc[r];
    }
  }

  /** A request's own query and sample cells lie below the padding. */
  lemma OwnBelowPadding(inp: Inputs, r: nat, n: nat)
    requires r < inp.Reqs()
    ensures r * n + n <= inp.Reqs() * n
  {
    BlockFits(r, inp.Reqs(), n);
  }

  /** Two instances of different requests never store to the same cell. */
  lemma SameRequest(inp: Inputs, r: nat, b: nat, q: nat, d: nat, c: Cell)
    requires inp.Valid() && inp.QueriesMatchSteps() && r < inp.Reqs() && q < inp.Reqs()
    requires inp.Owns(r, b, c) && inp.Owns(q, d, c)
    ensures r == q
  {
    BlocksApart(r, q, inp.queries, c.index);
    BlocksApart(r, q, inp.steps, c.index);
    OwnBelowPadding(inp, r, inp.queries);
    OwnBelowPadding(inp, q, inp.queries);
    OwnBelowPadding(inp, r, inp.steps);
    OwnBelowPadding(inp, q, inp.steps);
    StretchesApart(inp, r, q, c.index);
  }

  lemma SameContextBlock(inp: Inputs, r: nat, b: nat, d: nat, c: Cell)
    requires inp.Valid() && r < inp.Reqs()
    ensures inp.OwnsContext(r, b, c) && inp.OwnsContext(r, d, c) ==> b == d
  {
    SameLaneSameBlock(inp, b, d, c.index - inp.startLoc[r]);
  }

  lemma SameQueryBlock(inp: Inputs, r: nat, b: nat, d: nat, c: Cell)
    requires inp.Valid() && r < inp.Reqs()
    ensures inp.OwnsQuery(r, b, c) && inp.OwnsQuery(r, d, c) ==> b == d
  {
    SameLaneSameBlock(inp, b, d, inp.NumCtx(r) + c.index - r * inp.queries);
  }

  lemma SameSampleBlock(inp: Inputs, r: nat, b: nat, d: nat, c: Cell)
    requires inp.Valid() && r < inp.Reqs()
    ensures inp.OwnsSample(r, b, c) && inp.OwnsSample(r, d, c) ==> b == d
  {
    SameLaneSameBlock(inp, b, d, inp.NumCtx(r) + inp.SampleOff() + c.index - r * inp.steps);
  }

  lemma PadApart(inp: Inputs, r: nat, b: nat, d: nat, c: Cell)
    requires inp.Valid() && inp.QueriesMatchSteps() && r < inp.Reqs()
    ensures inp.OwnsPad(r, b, c) ==> !inp.OwnsContext(r, d, c) && !inp.OwnsQuery(r, d, c) && !inp.OwnsSample(r, d, c)
  {
    OwnBelowPadding(inp, r, inp.queries);
    OwnBelowPadding(inp, r, inp.steps);
  }

  lemma HeadApart(inp: Inputs, r: nat, b: nat, d: nat, c: Cell)
    requires inp.Valid() && r < inp.Reqs()
    ensures inp.OwnsHead(r, b, c) ==> !inp.OwnsContext(r, d, c) && !inp.OwnsQuery(r, d, c) && !inp.OwnsSample(r, d, c)
  {
  }

  lemma LaneGroupsApart(inp: Inputs, r: nat, b: nat, d: nat, c: Cell)
    requires inp.Valid() && r < inp.Reqs()
    ensures inp.OwnsContext(r, b, c) ==> !inp.OwnsQuery(r, d, c) && !inp.OwnsSample(r, d, c)
    ensures inp.OwnsQuery(r, b, c) ==> !inp.OwnsSample(r, d, c)
  {
  }

  lemma FirstBlockOnly(inp: Inputs, r: nat, b: nat, c: Cell)
    requires inp.Valid() && r < inp.Reqs()
    ensures inp.OwnsHead(r, b, c) || inp.OwnsPad(r, b, c) ==> b == 0
  {
  }

  /** Distinct instances write disjoint cells. */
  lemma OwnerUnique(inp: Inputs, r: nat, b: nat, q: nat, d: nat, c: Cell)
    requires inp.Valid() && inp.QueriesMatchSteps() && r < inp.Reqs() && q < inp.Reqs()
    requires inp.Owns(r, b, c) && inp.Owns(q, d, c)
    ensures r == q && b == d
  {
    SameRequest(inp, r, b, q, d, c);
    SameBlock(inp, r, b, d, c);
  }

  lemma SameBlock(inp: Inputs, r: nat, b: nat, d: nat, c: Cell)
    requires inp.Valid() && inp.QueriesMatchSteps() && r < inp.Reqs()
    requires inp.Owns(r, b, c) && inp.Owns(r, d, c)
    ensures b == d
  {
    SameContextBlock(inp, r, b, d, c);
    SameQueryBlock(inp, r, b, d, c);
    SameSampleBlock(inp, r, b, d, c);
    PadApart(inp, r, b, d, c);
    PadApart(inp, r, d, b, c);
    HeadApart(inp, r, b, d, c);
    HeadApart(inp, r, d, b, c);
    LaneGroupsApart(inp, r, b, d, c);
    LaneGroupsApart(inp, r, d, b, c);
    FirstBlockOnly(inp, r, b, c);
    FirstBlockOnly(inp, r, d, c);
  }

  lemma SameLaneSameBlock(inp: Inputs, b: nat, d: nat, j: int)
    ensures inp.Lane(b, j) && inp.Lane(d, j) ==> b == d
  {
    BlocksApart(b, d, inp.lanes, j);
  }

  // ---- coverage ----

  /** The request whose stretch of the batch holds token i. */
  lemma StretchOf(inp: Inputs, i: nat) returns (r: nat)
    requires inp.Valid() && inp.startLoc[0] <= i < inp.startLoc[inp.Reqs()]
    ensures r < inp.Reqs() && inp.startLoc[r] <= i < inp.startLoc[r + 1]
  {
    r := 0;
    while inp.startLoc[r + 1] <= i
      invariant r < inp.Reqs() && inp.startLoc[r] <= i
      decreases inp.Reqs() - r
    {
      r := r + 1;
    }
  }

  lemma ZeroTimes(a: nat, n: nat)
    ensures a == 0 || n == 0 ==> a * n == 0
  {
  }

  lemma MultiplesOrdered(a: nat, b: nat, n: nat)
    ensures a >= b ==> a * n >= b * n
  {
    if a >= b {
      assert (a - b) * n >= 0;
    }
  }

  lemma BlockOf(i: nat, n: nat, reqs: nat) returns (r: nat)
    requires i < reqs * n
    ensures r < reqs && r * n <= i < r * n + n
  {
    ZeroTimes(reqs, n);
    r := i / n;
    assert i == r * n + i % n;
    MultiplesOrdered(r, reqs, n);
  }

  /** A lane inside the grid belongs to one of its blocks. */
  lemma LaneOf(inp: Inputs, blocks: nat, j: nat) returns (b: nat)
    requires j < blocks * inp.lanes
    ensures b < blocks && inp.Lane(b, j)
  {
    b := BlockOf(j, inp.lanes, blocks);
  }

  lemma SomeBlock(inp: Inputs, blocks: nat)
    requires inp.Valid() && Covers(inp, blocks)
    ensures blocks > 0
  {
    assert inp.NumCtx(0) + inp.queries <= blocks * inp.lanes;
    ZeroTimes(blocks, inp.lanes);
  }

  lemma ContextOwner(inp: Inputs, blocks: nat, c: Cell) returns (r: nat, b: nat)
    requires inp.Valid() && Covers(inp, blocks) && Due(inp, c) && (c.buffer.ContextPositions? || c.buffer.ContextSlots?)
    ensures r < inp.Reqs() && b < blocks && inp.OwnsContext(r, b, c)
  {
    r := StretchOf(inp, c.index);
    assert inp.NumCtx(r) + inp.queries <= blocks * inp.lanes;
    b := LaneOf(inp, blocks, c.index - inp.startLoc[r]);
  }

  lemma QueryOwner(inp: Inputs, blocks: nat, c: Cell) returns (r: nat, b: nat)
    requires inp.Valid() && Covers(inp, blocks) &&
             (c.buffer.InputIds? || c.buffer.QueryPositions? || c.buffer.QuerySlots?)
    requires c.index < inp.Reqs() * inp.queries
    ensures r < inp.Reqs() && b < blocks && inp.OwnsQuery(r, b, c)
  {
    r := BlockOf(c.index, inp.queries, inp.Reqs());
    b := LaneOf(inp, blocks, inp.NumCtx(r) + c.index - r * inp.queries);
  }

  lemma SampleOwner(inp: Inputs, blocks: nat, c: Cell) returns (r: nat, b: nat)
    requires inp.Valid() && inp.QueriesMatchSteps() && Covers(inp, blocks)
    requires c.buffer.SampleIndices? || c.buffer.SamplePositions? || c.buffer.SampleMapping?
    requires c.index < inp.Reqs() * inp.steps
    ensures r < inp.Reqs() && b < blocks && inp.OwnsSample(r, b, c)
  {
    r := BlockOf(c.index, inp.steps, inp.Reqs());
    b := LaneOf(inp, blocks, inp.NumCtx(r) + inp.SampleOff() + c.index - r * inp.steps);
  }

  /** Every cell that is due has an owner in the grid. */
  lemma OwnerExists(inp: Inputs, blocks: nat, c: Cell) returns (r: nat, b: nat)
    requires inp.Valid() && inp.QueriesMatchSteps() && Covers(inp, blocks) && Due(inp, c)
    ensures r < inp.Reqs() && b < blocks && inp.Owns(r, b, c)
  {
    SomeBlock(inp, blocks);
    r, b := inp.Reqs() - 1, 0;
    match c.buffer {
      case ContextPositions => r, b := ContextOwner(inp, blocks, c);
      case ContextSlots => r, b := ContextOwner(inp, blocks, c);
      case InputIds => r, b := QueryOwner(inp, blocks, c);
      case QueryPositions => r, b := QueryOwner(inp, blocks, c);
      case QuerySlots =>
        if c.index < inp.Reqs() * inp.queries {
          r, b := QueryOwner(inp, blocks, c);
        }
      case SampleIndices =>
        if c.index < inp.Reqs() * inp.steps {
          r, b := SampleOwner(inp, blocks, c);
        }
      case SamplePositions =>
        if c.index < inp.Reqs() * inp.steps {
          r, b := SampleOwner(inp, blocks, c);
        }
      case SampleMapping =>
        if c.index < inp.Reqs() * inp.steps {
          r, b := SampleOwner(inp, blocks, c);
        }
      case QueryStart =>
        if c.index < inp.Reqs() {
          r := c.index;
        }
      case SeqLens =>
        if c.index < inp.Reqs() {
          r := c.index;
        }
      case Temperature => r :| r < inp.Reqs() && inp.idxMapping[r] == c.index;
      case Seeds => r :| r < inp.Reqs() && inp.idxMapping[r] == c.index;
    }
  }

  lemma ContextIsDue(inp: Inputs, r: nat, b: nat, c: Cell)
    requires inp.Valid() && r < inp.Reqs()
    ensures inp.OwnsContext(r, b, c) ==> Due(inp, c)
  {
    assert inp.startLoc[0] <= inp.startLoc[r] <= inp.startLoc[r + 1] <= inp.startLoc[inp.Reqs()];
  }

  lemma QueryIsDue(inp: Inputs, r: nat, b: nat, c: Cell)
    requires inp.Valid() && r < inp.Reqs()
    ensures inp.OwnsQuery(r, b, c) ==> Due(inp, c)
  {
    OwnBelowPadding(inp, r, inp.queries);
  }

  lemma SampleIsDue(inp: Inputs, r: nat, b: nat, c: Cell)
    requires inp.Valid() && inp.QueriesMatchSteps() && r < inp.Reqs()
    ensures inp.OwnsSample(r, b, c) ==> Due(inp, c)
  {
    BlockFits(r, inp.maxReqs, inp.steps);
  }

  /** And only those. */
  lemma OwnedIsDue(inp: Inputs, r: nat, b: nat, c: Cell)
    requires inp.Valid() && inp.QueriesMatchSteps() && r < inp.Reqs() && inp.Owns(r, b, c)
    ensures Due(inp, c)
  {
    ContextIsDue(inp, r, b, c);
    QueryIsDue(inp, r, b, c);
    SampleIsDue(inp, r, b, c);
  }

  // ---- determinism ----

  /** The stores of a whole launch: one program per request and block, requests in the high
      digits. */
  ghost predicate IsLaunch(inp: Inputs, blocks: nat, programs: seq<Stores>)
    requires inp.Valid()
  {
    && Covers(inp, blocks) && blocks > 0
    && |programs| == inp.Reqs() * blocks
    && forall r, b | 0 <= r < inp.Reqs() && 0 <= b < blocks :: InLaunch(inp, blocks, programs, r, b)
  }

  ghost predicate InLaunch(inp: Inputs, blocks: nat, programs: seq<Stores>, r: nat, b: nat)
    requires inp.Valid() && r < inp.Reqs()
  {
    r * blocks + b < |programs| && Issues(inp, r, b, programs[r * blocks + b])
  }

  lemma ProgramOf(inp: Inputs, blocks: nat, programs: seq<Stores>, p: nat) returns (r: nat, b: nat)
    requires inp.Valid() && IsLaunch(inp, blocks, programs) && p < |programs|
    ensures r < inp.Reqs() && b < blocks && p == r * blocks + b && Issues(inp, r, b, programs[p])
  {
    r := BlockOf(p, blocks, inp.Reqs());
    b := p - r * blocks;
    assert InLaunch(inp, blocks, programs, r, b);
  }

  /** A cell an instance owns is stored to once, by that instance and no other. */
  lemma WrittenOnce(inp: Inputs, blocks: nat, programs: seq<Stores>, c: Cell, r: nat, b: nat, p: nat)
    requires inp.Valid() && inp.QueriesMatchSteps() && IsLaunch(inp, blocks, programs)
    requires r < inp.Reqs() && b < blocks && inp.Owns(r, b, c) && p < |programs|
    ensures Count(programs[p], c) == if p == r * blocks + b then 1 else 0
  {
    var q, d := ProgramOf(inp, blocks, programs, p);
    if inp.Owns(q, d, c) {
      OwnerUnique(inp, r, b, q, d, c);
    } else if p == r * blocks + b {
      QuotientUnique(blocks, q, d, r, b);
    }
  }

  /** Under any schedule, every due cell is written exactly once and ends with the value its
      owner computes, and no other cell changes. */
  lemma LaunchFills(inp: Inputs, blocks: nat, programs: seq<Stores>, schedule: seq<nat>, start: int,
      c: Cell) returns (r: nat, b: nat)
    requires inp.Valid() && inp.QueriesMatchSteps() && IsLaunch(inp, blocks, programs) && Complete(programs, schedule)
    ensures Due(inp, c) ==>
              && r < inp.Reqs() && b < blocks && inp.Owns(r, b, c)
              && (forall p | 0 <= p < |programs| :: Count(programs[p], c) == if p == r * blocks + b then 1 else 0)
              && Final(start, Interleaved(programs, schedule), c) == inp.Value(r, c)
    ensures !Due(inp, c) ==>
              && (forall p | 0 <= p < |programs| :: Count(programs[p], c) == 0)
              && Final(start, Interleaved(programs, schedule), c) == start
  {
    r, b := 0, 0;
    if Due(inp, c) {
      r, b := OwnerExists(inp, blocks, c);
      forall p | 0 <= p < |programs| ensures Count(programs[p], c) == if p == r * blocks + b then 1 else 0 {
        WrittenOnce(inp, blocks, programs, c, r, b, p);
      }
      OwnerDecides(inp, blocks, programs, schedule, start, c, r, b);
    } else {
      forall p | 0 <= p < |programs| ensures Count(programs[p], c) == 0 {
        NotDueNotWritten(inp, blocks, programs, c, p);
      }
      forall p, t | 0 <= p < |programs| && t in programs[p] ensures t.at != c {
        CountPositive(programs[p], c);
      }
      UntouchedUnderAnySchedule(start, programs, schedule, c);
    }
  }

  lemma NotDueNotWritten(inp: Inputs, blocks: nat, programs: seq<Stores>, c: Cell, p: nat)
    requires inp.Valid() && inp.QueriesMatchSteps() && IsLaunch(inp, blocks, programs) && !Due(inp, c) && p < |programs|
    ensures Count(programs[p], c) == 0
  {
    var r, b := ProgramOf(inp, blocks, programs, p);
    if inp.Owns(r, b, c) {
      OwnedIsDue(inp, r, b, c);
    }
  }

  lemma OwnerDecides(inp: Inputs, blocks: nat, programs: seq<Stores>, schedule: seq<nat>, start: int, c: Cell, r: nat,
      b: nat)
    requires inp.Valid() && inp.QueriesMatchSteps() && IsLaunch(inp, blocks, programs) && Complete(programs, schedule)
    requires r < inp.Reqs() && b < blocks && inp.Owns(r, b, c)
    ensures Final(start, Interleaved(programs, schedule), c) == inp.Value(r, c)
  {
    var p := r * blocks + b;
    assert InLaunch(inp, blocks, programs, r, b);
    CountPositive(programs[p], c);
    var s :| s in programs[p] && s.at == c;
    forall q, t | 0 <= q < |programs| && t in programs[q] && t.at == c ensures t.value == s.value {
      CountPositive(programs[q], c);
      WrittenOnce(inp, blocks, programs, c, r, b, q);
    }
    AgreedUnderAnySchedule(start, programs, schedule, s);
  }

  // ---- what the buffers hold afterwards, in the inputs' own terms ----

  /** The content of a cell after the launch. */
  ghost function After(programs: seq<Stores>, schedule: seq<nat>, start: int, c: Cell): int
    requires Complete(programs, schedule)
  {
    Final(start, Interleaved(programs, schedule), c)
  }

  /** Position of the last token that was not rejected. */
  lemma LastValidIs(inp: Inputs, r: nat)
    requires inp.Valid() && r < inp.Reqs()
    ensures inp.startLoc[r] <= inp.startLoc[r + 1] - inp.rejected[r] - 1 < |inp.positions|
    ensures inp.LastValid(r) == inp.positions[inp.startLoc[r + 1] - inp.rejected[r] - 1]
  {
    assert inp.startLoc[r] <= inp.startLoc[r + 1] <= inp.startLoc[inp.Reqs()];
    assert inp.rejected[r] < inp.NumCtx(r);
  }

  /** The offset within the block is the position's, and the block is the one the request's table
      has for it, the table's last one past its end. */
  ghost predicate SlotFits(inp: Inputs, r: nat, pos: nat, slot: int)
    requires inp.Valid() && r < inp.Reqs()
  {
    var block := pos / inp.blockSize;
    && slot >= 0 && slot % inp.blockSize == pos % inp.blockSize
    && slot / inp.blockSize == if block < inp.stride then inp.blockTable[r][block]
        else inp.blockTable[r][inp.stride - 1]
  }

  lemma SlotInBlock(inp: Inputs, r: nat, pos: nat)
    requires inp.Valid() && r < inp.Reqs()
    ensures SlotFits(inp, r, pos, inp.Slot(r, pos))
  {
    var table := pos / inp.blockSize;
    var block := inp.blockTable[r][if table < inp.stride then table else inp.stride - 1];
    assert inp.Slot(r, pos) == block * inp.blockSize + pos % inp.blockSize;
    DivModIs(inp.Slot(r, pos), inp.blockSize, block, pos % inp.blockSize);
  }

  /** A query cell: the first of a request holds the token last sampled for its state, or its
      next prefill token when nothing was sampled, the others the mask token; positions follow
      the last token that was not rejected; the cache slot is in that position's block. */
  lemma QueryAfter(inp: Inputs, blocks: nat, programs: seq<Stores>, schedule: seq<nat>, start: int, r: nat, off: nat)
    requires inp.Valid() && inp.QueriesMatchSteps() && IsLaunch(inp, blocks, programs) && Complete(programs, schedule)
    requires r < inp.Reqs() && off < inp.queries
    ensures
      var state, at := inp.idxMapping[r], r * inp.queries + off;
      After(programs, schedule, start, Cell(InputIds, at)) ==
      if off > 0 then inp.maskToken
      else if inp.sampled[r] > 0 then inp.lastSampled[state] else inp.nextPrefill[state]
    ensures inp.startLoc[r] <= inp.startLoc[r + 1] - inp.rejected[r] - 1 < |inp.positions|
    ensures
      var at, pos := r * inp.queries + off, inp.positions[inp.startLoc[r + 1] - inp.rejected[r] - 1] + 1 + off;
      var slot := After(programs, schedule, start, Cell(QuerySlots, at));
      && After(programs, schedule, start, Cell(QueryPositions, at)) == Min(pos, inp.maxModelLen - 1)
      && SlotFits(inp, r, pos, slot)
  {
    var at := r * inp.queries + off;
    LastValidIs(inp, r);
    QueryCellDecided(inp, blocks, programs, schedule, start, r, Cell(InputIds, at));
    QueryCellDecided(inp, blocks, programs, schedule, start, r, Cell(QueryPositions, at));
    QueryCellDecided(inp, blocks, programs, schedule, start, r, Cell(QuerySlots, at));
    SlotInBlock(inp, r, inp.LastValid(r) + 1 + off);
  }

  lemma QueryCellDecided(inp: Inputs, blocks: nat, programs: seq<Stores>, schedule: seq<nat>, start: int,
                     r: nat, c: Cell)
    requires inp.Valid() && inp.QueriesMatchSteps() && IsLaunch(inp, blocks, programs) && Complete(programs, schedule)
    requires r < inp.Reqs() && r * inp.queries <= c.index < r * inp.queries + inp.queries
    requires c.buffer.InputIds? || c.buffer.QueryPositions? || c.buffer.QuerySlots?
    ensures After(programs, schedule, start, c) == inp.Value(r, c)
  {
    OwnBelowPadding(inp, r, inp.queries);
    var q, b := QueryOwner(inp, blocks, c);
    BlocksApart(r, q, inp.queries, c.index);
    OwnerDecides(inp, blocks, programs, schedule, start, c, r, b);
  }

  /** The k-th sample of a request: the query cell it names carries the position the sample
      predicts, or the one before it when sampling from the anchor; it maps to the request's state
      and predicts the position k + 2 past the last token that was not rejected. */
  lemma SampleAfter(inp: Inputs, blocks: nat, programs: seq<Stores>, schedule: seq<nat>, start: int,
                    r: nat, k: nat, at: nat, first: nat)
    requires inp.Valid() && inp.QueriesMatchSteps() && IsLaunch(inp, blocks, programs) && Complete(programs, schedule)
    requires r < inp.Reqs() && k < inp.steps && at == r * inp.steps + k && first == r * inp.queries
    ensures
      var query := After(programs, schedule, start, Cell(SampleIndices, at));
      var pos := After(programs, schedule, start, Cell(SamplePositions, at)) - (if inp.fromAnchor then 1 else 0);
      && first <= query < first + inp.queries
      && After(programs, schedule, start, Cell(QueryPositions, query)) == Min(pos, inp.maxModelLen - 1)
      && query == first + k + (if inp.fromAnchor then 0 else 1)
      && After(programs, schedule, start, Cell(SampleMapping, at)) == inp.idxMapping[r]
    ensures inp.startLoc[r] <= inp.startLoc[r + 1] - inp.rejected[r] - 1 < |inp.positions|
    ensures After(programs, schedule, start, Cell(SamplePositions, at)) ==
            inp.positions[inp.startLoc[r + 1] - inp.rejected[r] - 1] + k + 2
  {
    LastValidIs(inp, r);
    var query := first + k + inp.SampleOff();
    SampleCellsAre(inp, blocks, programs, schedule, start, r, k, at, query);
    QueryCellDecided(inp, blocks, programs, schedule, start, r, Cell(QueryPositions, query));
    SampleValues(inp, r, k, at, query);
  }

  lemma SampleCellsAre(inp: Inputs, blocks: nat, programs: seq<Stores>, schedule: seq<nat>, start: int,
                       r: nat, k: nat, at: nat, query: nat)
    requires inp.Valid() && inp.QueriesMatchSteps() && IsLaunch(inp, blocks, programs) && Complete(programs, schedule)
    requires r < inp.Reqs() && k < inp.steps
    requires at == r * inp.steps + k && query == r * inp.queries + k + inp.SampleOff()
    ensures After(programs, schedule, start, Cell(SampleIndices, at)) == query
    ensures After(programs, schedule, start, Cell(SamplePositions, at)) == inp.Value(r, Cell(SamplePositions, at))
    ensures After(programs, schedule, start, Cell(SampleMapping, at)) == inp.idxMapping[r]
  {
    SampleCellDecided(inp, blocks, programs, schedule, start, r, Cell(SampleIndices, at));
    SampleCellDecided(inp, blocks, programs, schedule, start, r, Cell(SamplePositions, at));
    SampleCellDecided(inp, blocks, programs, schedule, start, r, Cell(SampleMapping, at));
    SampleValues(inp, r, k, at, query);
  }

  lemma SampleValues(inp: Inputs, r: nat, k: nat, at: nat, query: nat)
    requires inp.Valid() && inp.QueriesMatchSteps() && r < inp.Reqs() && k < inp.steps
    requires at == r * inp.steps + k && query == r * inp.queries + k + inp.SampleOff()
    ensures inp.Value(r, Cell(SamplePositions, at)) == inp.LastValid(r) + k + 2
    ensures inp.Value(r, Cell(SampleIndices, at)) == query && inp.Value(r, Cell(SampleMapping, at)) == inp.idxMapping[r]
    ensures inp.Value(r, Cell(QueryPositions, query)) ==
            Min(inp.Value(r, Cell(SamplePositions, at)) - (if inp.fromAnchor then 1 else 0), inp.maxModelLen - 1)
  {
  }

  lemma SampleCellDecided(inp: Inputs, blocks: nat, programs: seq<Stores>, schedule: seq<nat>, start: int,
                     r: nat, c: Cell)
    requires inp.Valid() && inp.QueriesMatchSteps() && IsLaunch(inp, blocks, programs) && Complete(programs, schedule)
    requires r < inp.Reqs() && r * inp.steps <= c.index < r * inp.steps + inp.steps
    requires c.buffer.SampleIndices? || c.buffer.SamplePositions? || c.buffer.SampleMapping?
    ensures After(programs, schedule, start, c) == inp.Value(r, c)
  {
    OwnBelowPadding(inp, r, inp.steps);
    var q, b := SampleOwner(inp, blocks, c);
    BlocksApart(r, q, inp.steps, c.index);
    OwnerDecides(inp, blocks, programs, schedule, start, c, r, b);
  }

  /** A context token keeps its position and gets the slot of that position. */
  lemma ContextAfter(inp: Inputs, blocks: nat, programs: seq<Stores>, schedule: seq<nat>, start: int, r: nat, at: nat)
    requires inp.Valid() && inp.QueriesMatchSteps() && IsLaunch(inp, blocks, programs) && Complete(programs, schedule)
    requires r < inp.Reqs() && inp.startLoc[r] <= at < inp.startLoc[r + 1]
    ensures at < |inp.positions|
    ensures After(programs, schedule, start, Cell(ContextPositions, at)) == inp.positions[at]
    ensures SlotFits(inp, r, inp.positions[at], After(programs, schedule, start, Cell(ContextSlots, at)))
  {
    assert inp.startLoc[0] <= inp.startLoc[r] <= inp.startLoc[r + 1] <= inp.startLoc[inp.Reqs()];
    ContextCellDecided(inp, blocks, programs, schedule, start, r, Cell(ContextPositions, at));
    ContextCellDecided(inp, blocks, programs, schedule, start, r, Cell(ContextSlots, at));
    SlotInBlock(inp, r, inp.positions[at]);
  }

  lemma ContextCellDecided(inp: Inputs, blocks: nat, programs: seq<Stores>, schedule: seq<nat>, start: int,
                     r: nat, c: Cell)
    requires inp.Valid() && inp.QueriesMatchSteps() && IsLaunch(inp, blocks, programs) && Complete(programs, schedule)
    requires r < inp.Reqs() && inp.startLoc[r] <= c.index < inp.startLoc[r + 1]
    requires c.buffer.ContextPositions? || c.buffer.ContextSlots?
    ensures After(programs, schedule, start, c) == inp.Value(r, c)
  {
    assert inp.startLoc[0] <= inp.startLoc[r] <= inp.startLoc[r + 1] <= inp.startLoc[inp.Reqs()];
    var q, b := ContextOwner(inp, blocks, c);
    StretchesApart(inp, r, q, c.index);
    OwnerDecides(inp, blocks, programs, schedule, start, c, r, b);
  }

  /** Per request: where its queries start, the attended length, and its state's sampling
      parameters. */
  lemma HeadAfter(inp: Inputs, blocks: nat, programs: seq<Stores>, schedule: seq<nat>, start: int, r: nat)
    requires inp.Valid() && inp.QueriesMatchSteps() && IsLaunch(inp, blocks, programs) && Complete(programs, schedule)
    requires r < inp.Reqs()
    ensures After(programs, schedule, start, Cell(QueryStart, r)) == r * inp.queries
    ensures inp.startLoc[r] <= inp.startLoc[r + 1] - inp.rejected[r] - 1 < |inp.positions|
    ensures After(programs, schedule, start, Cell(SeqLens, r)) ==
            inp.positions[inp.startLoc[r + 1] - inp.rejected[r] - 1] + 1 + inp.queries
    ensures After(programs, schedule, start, Cell(Temperature, inp.idxMapping[r])) == inp.temperature[inp.idxMapping[r]]
    ensures After(programs, schedule, start, Cell(Seeds, inp.idxMapping[r])) == inp.seeds[inp.idxMapping[r]]
  {
    SomeBlock(inp, blocks);
    LastValidIs(inp, r);
    OwnerDecides(inp, blocks, programs, schedule, start, Cell(QueryStart, r), r, 0);
    OwnerDecides(inp, blocks, programs, schedule, start, Cell(SeqLens, r), r, 0);
    OwnerDecides(inp, blocks, programs, schedule, start, Cell(Temperature, inp.idxMapping[r]), r, 0);
    OwnerDecides(inp, blocks, programs, schedule, start, Cell(Seeds, inp.idxMapping[r]), r, 0);
  }

  /** Past the requests, up to the captured maxima: starts at the end of the queries, no length,
      samples of query 0 for no request, and padding slots. */
  lemma PaddingAfter(inp: Inputs, blocks: nat, programs: seq<Stores>, schedule: seq<nat>, start: int, i: nat)
    requires inp.Valid() && inp.QueriesMatchSteps() && IsLaunch(inp, blocks, programs) && Complete(programs, schedule)
    ensures inp.Reqs() <= i <= inp.maxReqs ==>
              After(programs, schedule, start, Cell(QueryStart, i)) == inp.Reqs() * inp.queries
    ensures inp.Reqs() <= i < inp.maxReqs ==> After(programs, schedule, start, Cell(SeqLens, i)) == 0
    ensures inp.Reqs() * inp.steps <= i < inp.maxReqs * inp.steps ==>
              && After(programs, schedule, start, Cell(SampleIndices, i)) == 0
              && After(programs, schedule, start, Cell(SamplePositions, i)) == 0
              && After(programs, schedule, start, Cell(SampleMapping, i)) == -1
    ensures inp.Reqs() * inp.queries <= i < inp.maxTokens ==>
              After(programs, schedule, start, Cell(QuerySlots, i)) == inp.padSlot
  {
    var r := inp.Reqs() - 1;
    SomeBlock(inp, blocks);
    PaddingBeyondRequests(inp);
    PadCellDecided(inp, blocks, programs, schedule, start, Cell(QueryStart, i));
    PadCellDecided(inp, blocks, programs, schedule, start, Cell(SeqLens, i));
    PadCellDecided(inp, blocks, programs, schedule, start, Cell(SampleIndices, i));
    PadCellDecided(inp, blocks, programs, schedule, start, Cell(SamplePositions, i));
    PadCellDecided(inp, blocks, programs, schedule, start, Cell(SampleMapping, i));
    PadCellDecided(inp, blocks, programs, schedule, start, Cell(QuerySlots, i));
  }

  lemma PadCellDecided(inp: Inputs, blocks: nat, programs: seq<Stores>, schedule: seq<nat>, start: int, c: Cell)
    requires inp.Valid() && inp.QueriesMatchSteps() && IsLaunch(inp, blocks, programs) && Complete(programs, schedule)
    ensures inp.OwnsPad(inp.Reqs() - 1, 0, c) ==> After(programs, schedule, start, c) == inp.Value(inp.Reqs() - 1, c)
  {
    SomeBlock(inp, blocks);
    if inp.OwnsPad(inp.Reqs() - 1, 0, c) {
      OwnerDecides(inp, blocks, programs, schedule, start, c, inp.Reqs() - 1, 0);
    }
  }

  /** A request whose tokens sit at consecutive positions from p0 and of which `accepted` were
      not rejected: the query tokens take the positions right after the last accepted one, the
      k-th sample predicts position p0 + accepted + k + 1 in both sampling modes, and the
      attended length ends with the last query. */
  lemma QueriesContinue(inp: Inputs, r: nat, p0: nat, off: nat, k: nat)
    requires inp.Valid() && inp.QueriesMatchSteps() && r < inp.Reqs() && off < inp.queries && k < inp.steps
    requires forall t | inp.startLoc[r] <= t < inp.startLoc[r + 1] && t < |inp.positions| ::
               inp.positions[t] == p0 + t - inp.startLoc[r]
    ensures
      var accepted := inp.NumCtx(r) - inp.rejected[r];
      && inp.Value(r, Cell(QueryPositions, r * inp.queries + off)) == Min(p0 + accepted + off, inp.maxModelLen - 1)
      && inp.Value(r, Cell(SamplePositions, r * inp.steps + k)) == p0 + accepted + k + 1
      && inp.Value(r, Cell(SeqLens, r)) == p0 + accepted + inp.queries
  {
    LastValidIs(inp, r);
  }
}
