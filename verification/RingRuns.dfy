/** The draft ring, its visibility masks and the steady flag over whole serving runs:
    requests are admitted on rows, then batches of prefill chunks and draft steps (with
    rejected tokens) are ingested. */
module RingRuns {
  import opened Prelude
  import opened DraftRing

  /** The request on a row: its accepted tokens, the first `start` of which came from the
      prefix cache and were never ingested. */
  datatype Req<T> = Req(hist: seq<T>, start: nat)

  /** One batch entry: the target ran `block` on `row` and rejected its last `rejected`
      tokens; `bound` is the host's upper bound on the sequence length. */
  datatype Entry<T> = Entry(row: nat, block: seq<T>, rejected: nat, bound: nat)

  datatype Event<T> =
    | Admit(row: nat, prefix: seq<T>)
    | Step(batch: seq<Entry<T>>)

  datatype Sys<T> = Sys(rows: seq<seq<T>>, mask: seq<seq<bool>>, steady: bool, reqs: seq<Req<T>>)

  /** Ring width and the number of query tokens per request. */
  datatype Config = Config(w: nat, gamma: nat)

  predicate Shaped<T>(c: Config, s: Sys<T>) {
    && 0 < c.w
    && |s.rows| == |s.mask| == |s.reqs|
    && forall r | 0 <= r < |s.rows| :: |s.rows[r]| == |s.mask[r]| == c.w
  }

  /** Before any request: ring and mask contents are arbitrary. */
  ghost predicate Initial<T>(c: Config, s: Sys<T>) {
    && Shaped(c, s)
    && !s.steady
    && forall r | 0 <= r < |s.reqs| :: s.reqs[r] == Req([], 0)
  }

  predicate LegalBatch<T>(rows: nat, batch: seq<Entry<T>>) {
    && batch != []
    && (forall i | 0 <= i < |batch| :: batch[i].row < rows && batch[i].rejected < |batch[i].block|)
    && (forall i, j | 0 <= i < j < |batch| :: batch[i].row != batch[j].row)
  }

  predicate Legal<T>(s: Sys<T>, e: Event<T>) {
    match e
    case Admit(row, _) => row < |s.reqs|
    case Step(batch) => LegalBatch(|s.reqs|, batch)
  }

  /** The batch position of row `r`, or |batch| when the row is not in the batch. */
  function Find<T>(batch: seq<Entry<T>>, r: nat): (i: nat)
    ensures i <= |batch|
    ensures i < |batch| ==> batch[i].row == r
    ensures forall j | 0 <= j < i :: batch[j].row != r
  {
    if batch == [] || batch[0].row == r then 0 else Find(batch[1..], r) + 1
  }

  function Accepted<T>(e: Entry<T>): seq<T>
    requires e.rejected <= |e.block|
  {
    e.block[..|e.block| - e.rejected]
  }

  /** A request after one of its steps: the accepted tokens are appended. */
  function Extend<T>(q: Req<T>, e: Entry<T>): Req<T>
    requires e.rejected <= |e.block|
  {
    Req(q.hist + Accepted(e), q.start)
  }

  function MinBound<T>(batch: seq<Entry<T>>): (m: nat)
    requires batch != []
    ensures forall i | 0 <= i < |batch| :: m <= batch[i].bound
  {
    if |batch| == 1 then batch[0].bound
    else
      var rest := MinBound(batch[1..]);
      if batch[0].bound <= rest then batch[0].bound else rest
  }

  function Deep<T>(c: Config, batch: seq<Entry<T>>): bool
    requires batch != []
  {
    MinBound(batch) > c.w + c.gamma
  }

  function NewReq<T>(reqs: seq<Req<T>>, batch: seq<Entry<T>>, r: nat): Req<T>
    requires r < |reqs| && LegalBatch(|reqs|, batch)
  {
    var i := Find(batch, r);
    if i == |batch| then reqs[r] else Extend(reqs[r], batch[i])
  }

  function NewRow<T>(row: seq<T>, reqs: seq<Req<T>>, batch: seq<Entry<T>>, r: nat): (t: seq<T>)
    requires r < |reqs| && LegalBatch(|reqs|, batch)
    ensures |t| == |row|
  {
    var i := Find(batch, r);
    if i == |batch| then row else AfterIngest(row, |reqs[r].hist|, Accepted(batch[i]))
  }

  function NewMask<T>(c: Config, mask: seq<bool>, reqs: seq<Req<T>>, batch: seq<Entry<T>>, r: nat): (t: seq<bool>)
    requires |mask| == c.w && r < |reqs| && LegalBatch(|reqs|, batch)
    ensures |t| == c.w
  {
    if Find(batch, r) == |batch| then mask else PrefixMask(Min(|NewReq(reqs, batch, r).hist|, c.w), c.w)
  }

  /** One event. With `skip` off the mask is rebuilt on every step; with it on, the rebuild
      is left out once the flag is steady and the batch is deep. */
  function Apply<T>(c: Config, s: Sys<T>, e: Event<T>, skip: bool): (t: Sys<T>)
    requires Shaped(c, s) && Legal(s, e)
    ensures Shaped(c, t) && |t.rows| == |s.rows|
  {
    match e
    case Admit(row, prefix) => s.(reqs := s.reqs[row := Req(prefix, |prefix|)])
    case Step(batch) =>
      var n := |s.reqs|;
      Sys(
        seq(n, r requires 0 <= r < n => NewRow(s.rows[r], s.reqs, batch, r)),
        if skip && s.steady && Deep(c, batch) then s.mask
        else seq(n, r requires 0 <= r < n => NewMask(c, s.mask[r], s.reqs, batch, r)),
        Deep(c, batch),
        seq(n, r requires 0 <= r < n => NewReq(s.reqs, batch, r)))
  }

  /** A state that agrees with a step row by row is the step's result. */
  lemma ApplyIs<T>(c: Config, s: Sys<T>, batch: seq<Entry<T>>, t: Sys<T>)
    requires Shaped(c, s) && LegalBatch(|s.reqs|, batch) && Shaped(c, t) && |t.rows| == |s.rows|
    requires t.steady == Deep(c, batch)
    requires forall r | 0 <= r < |s.reqs| ::
               && t.rows[r] == NewRow(s.rows[r], s.reqs, batch, r)
               && t.mask[r] == (if s.steady && Deep(c, batch) then s.mask[r]
                   else NewMask(c, s.mask[r], s.reqs, batch, r))
               && t.reqs[r] == NewReq(s.reqs, batch, r)
    ensures t == Apply(c, s, Step(batch), true)
  {
    var u := Apply(c, s, Step(batch), true);
    assert t.rows == u.rows && t.mask == u.mask && t.reqs == u.reqs;
  }

  predicate LegalRun<T>(c: Config, s: Sys<T>, run: seq<Event<T>>)
    requires Shaped(c, s)
    decreases |run|
  {
    run == [] || (Legal(s, run[0]) && LegalRun(c, Apply(c, s, run[0], true), run[1..]))
  }

  function Run<T>(c: Config, s: Sys<T>, run: seq<Event<T>>, skip: bool): (t: Sys<T>)
    requires Shaped(c, s) && LegalRun(c, s, run)
    ensures Shaped(c, t) && |t.rows| == |s.rows|
    decreases |run|
  {
    if run == [] then s
    else
      LegalSame(c, Apply(c, s, run[0], true), Apply(c, s, run[0], skip), run[1..]);
      Run(c, Apply(c, s, run[0], skip), run[1..], skip)
  }

  /** Legality depends on the number of rows only. */
  lemma {:induction false} LegalSame<T>(c: Config, s: Sys<T>, t: Sys<T>, run: seq<Event<T>>)
    requires Shaped(c, s) && Shaped(c, t) && |s.reqs| == |t.reqs| && LegalRun(c, s, run)
    ensures LegalRun(c, t, run)
    decreases |run|
  {
    if run != [] {
      LegalSame(c, Apply(c, s, run[0], true), Apply(c, t, run[0], true), run[1..]);
    }
  }

  /** Every row's ring holds its request's ingested tokens. */
  ghost predicate AllHold<T>(c: Config, s: Sys<T>)
    requires Shaped(c, s)
  {
    forall r | 0 <= r < |s.reqs| ::
      s.reqs[r].start <= |s.reqs[r].hist| && Holds(s.rows[r], s.reqs[r].hist, s.reqs[r].start)
  }

  lemma ApplyKeepsHold<T>(c: Config, s: Sys<T>, e: Event<T>, skip: bool)
    requires Shaped(c, s) && Legal(s, e) && AllHold(c, s)
    ensures AllHold(c, Apply(c, s, e, skip))
  {
    if e.Step? {
      forall r | 0 <= r < |s.reqs|
        ensures Holds(NewRow(s.rows[r], s.reqs, e.batch, r), NewReq(s.reqs, e.batch, r).hist, s.reqs[r].start)
      {
        var i := Find(e.batch, r);
        if i < |e.batch| {
          IngestKeepsHolds(s.rows[r], s.reqs[r].hist, s.reqs[r].start, Accepted(e.batch[i]));
        }
      }
    }
  }

  /** Ring invariant over all runs: whatever the ring held at start-up, after any sequence of
      admissions, prefill chunks (of any length) and draft steps with rejections every slot
      holds the latest accepted token that maps to it. */
  lemma {:induction false} RunHolds<T>(c: Config, s: Sys<T>, run: seq<Event<T>>, skip: bool)
    requires Shaped(c, s) && AllHold(c, s) && LegalRun(c, s, run)
    ensures AllHold(c, Run(c, s, run, skip))
    decreases |run|
  {
    if run != [] {
      var t := Apply(c, s, run[0], skip);
      ApplyKeepsHold(c, s, run[0], skip);
      LegalSame(c, Apply(c, s, run[0], true), t, run[1..]);
      RunHolds(c, t, run[1..], skip);
    }
  }

  /** The host's bound overshoots the accepted length by at most gamma. */
  ghost predicate Slack<T>(c: Config, s: Sys<T>, e: Event<T>)
    requires Legal(s, e)
  {
    e.Step? ==> forall i | 0 <= i < |e.batch| ::
      e.batch[i].bound <= |NewReq(s.reqs, e.batch, e.batch[i].row).hist| + c.gamma
  }

  function ExactMask<T>(c: Config, s: Sys<T>, r: nat): seq<bool>
    requires r < |s.reqs|
  {
    PrefixMask(Min(|s.reqs[r].hist|, c.w), c.w)
  }

  lemma PrefixMaskInjective(m: nat, n: nat, w: nat)
    requires m <= w && n <= w && m != n
    ensures PrefixMask(m, w) != PrefixMask(n, w)
  {
    var k := Min(m, n);
    assert PrefixMask(m, w)[k] != PrefixMask(n, w)[k];
  }

  /** When the skipped rebuild matters: after a step a batch row's mask is exact if and only
      if the mask was rebuilt or the row's old mask was already fully open. */
  lemma SkipExactIff<T>(c: Config, s: Sys<T>, e: Event<T>, i: nat)
    requires Shaped(c, s) && Legal(s, e) && e.Step? && Slack(c, s, e) && i < |e.batch|
    ensures
      var t, r := Apply(c, s, e, true), e.batch[i].row;
      t.mask[r] == ExactMask(c, t, r) <==>
      !(s.steady && Deep(c, e.batch)) || s.mask[r] == PrefixMask(c.w, c.w)
  {
    assert Find(e.batch, e.batch[i].row) == i;
  }

  function RowsOf<T>(batch: seq<Entry<T>>): set<nat> {
    set i | 0 <= i < |batch| :: batch[i].row
  }

  /** The flag after a step says that every bound exceeded the window by more than gamma. */
  lemma SteadyIff<T>(c: Config, s: Sys<T>, e: Event<T>)
    requires Shaped(c, s) && Legal(s, e) && e.Step?
    ensures Apply(c, s, e, true).steady <==> forall i | 0 <= i < |e.batch| :: e.batch[i].bound > c.w + c.gamma
  {
    var k := MinBoundAttained(e.batch);
  }

  /** The masks are left alone exactly when the flag was set and every bound exceeds that; as soon
      as one bound does not, every row of the batch gets its exact mask. */
  lemma ShallowStepExact<T>(c: Config, s: Sys<T>, e: Event<T>, i: nat)
    requires Shaped(c, s) && Legal(s, e) && e.Step? && i < |e.batch|
    ensures (exists j :: 0 <= j < |e.batch| && e.batch[j].bound <= c.w + c.gamma) || !s.steady ==>
              var t := Apply(c, s, e, true);
              t.mask[e.batch[i].row] == ExactMask(c, t, e.batch[i].row)
    ensures s.steady && (forall j | 0 <= j < |e.batch| :: e.batch[j].bound > c.w + c.gamma) ==>
              Apply(c, s, e, true).mask == s.mask
  {
    SteadyIff(c, s, e);
    assert Find(e.batch, e.batch[i].row) == i;
  }

  lemma MinBoundAttained<T>(batch: seq<Entry<T>>) returns (k: nat)
    requires batch != []
    ensures k < |batch| && MinBound(batch) == batch[k].bound
  {
    if |batch| == 1 {
      k := 0;
    } else {
      k := MinBoundAttained(batch[1..]);
      k := if batch[0].bound <= MinBound(batch[1..]) then 0 else k + 1;
    }
  }

  /** Every step's batch has exactly the rows `active` and slack bounds. */
  ghost predicate FixedMembership<T>(c: Config, s: Sys<T>, run: seq<Event<T>>, active: set<nat>)
    requires Shaped(c, s) && LegalRun(c, s, run)
    decreases |run|
  {
    run == [] ||
    (&& (run[0].Step? ==> RowsOf(run[0].batch) == active)
     && Slack(c, s, run[0])
     && FixedMembership(c, Apply(c, s, run[0], true), run[1..], active))
  }

  /** While the flag is steady the active rows' masks are fully open. */
  ghost predicate SteadyOpen<T>(c: Config, s: Sys<T>, active: set<nat>)
    requires Shaped(c, s)
  {
    s.steady ==> forall r | r in active && r < |s.mask| :: s.mask[r] == PrefixMask(c.w, c.w)
  }

  lemma FixedStep<T>(c: Config, s: Sys<T>, e: Event<T>, active: set<nat>)
    requires Shaped(c, s) && Legal(s, e) && Slack(c, s, e) && SteadyOpen(c, s, active)
    requires e.Step? ==> RowsOf(e.batch) == active
    ensures SteadyOpen(c, Apply(c, s, e, true), active)
    ensures Apply(c, s, e, true) == Apply(c, s, e, false)
  {
    if e.Step? {
      var t, u := Apply(c, s, e, true), Apply(c, s, e, false);
      if Deep(c, e.batch) {
        forall r | 0 <= r < |s.reqs| && r in active
          ensures u.mask[r] == PrefixMask(c.w, c.w)
        {
          var i :| 0 <= i < |e.batch| && e.batch[i].row == r;
          assert Find(e.batch, r) == i;
        }
        if s.steady {
          forall r | 0 <= r < |s.reqs| ensures s.mask[r] == u.mask[r] {
            if Find(e.batch, r) < |e.batch| {
              assert r in active;
            }
          }
          assert s.mask == u.mask;
        }
      }
    }
  }

  /** For a fixed set of active rows, skipping the rebuild gives the same masks (and the same
      everything) as rebuilding on every step, after every run. */
  lemma {:induction false} SkipRefinesRebuild<T>(c: Config, s: Sys<T>, run: seq<Event<T>>, active: set<nat>)
    requires Shaped(c, s) && LegalRun(c, s, run) && SteadyOpen(c, s, active)
    requires FixedMembership(c, s, run, active)
    ensures Run(c, s, run, true) == Run(c, s, run, false)
    decreases |run|
  {
    if run != [] {
      FixedStep(c, s, run[0], active);
      SkipRefinesRebuild(c, Apply(c, s, run[0], true), run[1..], active);
    }
  }

  /** A one-entry step of `n` copies of `tok` with an exact bound. */
  function StepOf<T>(row: nat, tok: T, n: nat): Event<T> {
    Step([Entry(row, seq(n, _ => tok), 0, n)])
  }

  /** A cold request on row 0, then a deep one on row 1, then a new request admitted on row 0. */
  function JoinRun<T>(c: Config, tok: T): seq<Event<T>> {
    [StepOf(0, tok, 1), StepOf(1, tok, c.w + c.gamma + 1), Admit(0, [])]
  }

  lemma JoinRunState<T>(c: Config, s: Sys<T>, tok: T)
    requires Initial(c, s) && 1 < c.w && |s.rows| == 2
    ensures LegalRun(c, s, JoinRun(c, tok))
    ensures
      var t := Run(c, s, JoinRun(c, tok), true);
      t.steady && t.mask[0] == PrefixMask(1, c.w) && t.reqs[0] == Req([], 0) && |t.reqs| == 2
  {
    var run := JoinRun(c, tok);
    var s1 := Apply(c, s, run[0], true);
    var s2 := Apply(c, s1, run[1], true);
    var s3 := Apply(c, s2, run[2], true);
    assert s1.mask[0] == PrefixMask(1, c.w) && !s1.steady;
    assert s2.mask[0] == PrefixMask(1, c.w) && s2.steady;
    assert run[1..][1..][1..] == [] && run[1..][1..] == [run[2]] && run[1..][0] == run[1];
    assert LegalRun(c, s3, []) && Run(c, s3, [], true) == s3;
    assert LegalRun(c, s2, run[1..][1..]) && Run(c, s2, run[1..][1..], true) == s3;
    assert LegalRun(c, s1, run[1..]) && Run(c, s1, run[1..], true) == s3;
  }

  /** With changing membership the skip is not a refinement: a row whose last rebuild was
      shallow, reused by a deep request while the flag is steady, keeps its shallow mask. */
  lemma JoiningRowStaysHidden<T>(c: Config, s: Sys<T>, tok: T)
    requires Initial(c, s) && 1 < c.w && |s.rows| == 2
    ensures LegalRun(c, s, JoinRun(c, tok))
    ensures
      var t, e := Run(c, s, JoinRun(c, tok), true), StepOf(0, tok, c.w + c.gamma + 1);
      Apply(c, t, e, true).mask[0] == PrefixMask(1, c.w) != Apply(c, t, e, false).mask[0]
  {
    JoinRunState(c, s, tok);
    PrefixMaskInjective(1, c.w, c.w);
    var t, e := Run(c, s, JoinRun(c, tok), true), StepOf(0, tok, c.w + c.gamma + 1);
    assert Apply(c, t, e, false).mask[0] == PrefixMask(c.w, c.w);
  }

  /** What `_ring_attention` reads at batch position i: the ring by row, the mask by position. */
  function Attended<T>(c: Config, s: Sys<T>, batch: seq<Entry<T>>, i: nat): seq<T>
    requires Shaped(c, s) && LegalBatch(|s.reqs|, batch) && i < |batch| <= |s.reqs|
  {
    Visible(s.rows[batch[i].row], s.mask[i])
  }

  /** After a step, attention at a batch position that is also its ring row, mask skipped or
      not: if the cached prefix is out of the window it reads nothing outside the last w accepted
      tokens, and the whole window, each token once, whenever its mask row is exact; with a
      cached prefix that still reaches into the window it does so where the mask opens ingested
      slots only. */
  lemma StepExposure<T>(c: Config, s: Sys<T>, e: Event<T>, i: nat)
    requires Shaped(c, s) && Legal(s, e) && AllHold(c, s) && e.Step? && Slack(c, s, e)
    requires i < |e.batch| <= |s.reqs| && e.batch[i].row == i
    ensures
      var t := Apply(c, s, e, true);
      var q := t.reqs[i];
      && (q.start <= Max(0, |q.hist| - c.w) ==> Ingested(t.mask[i], |q.hist|, q.start))
      && (Ingested(t.mask[i], |q.hist|, q.start) ==>
            multiset(Attended(c, t, e.batch, i)) <= multiset(Window(q.hist, c.w)))
      && (q.start <= Max(0, |q.hist| - c.w) && t.mask[i] == ExactMask(c, t, i) ==>
            multiset(Attended(c, t, e.batch, i)) == multiset(Window(q.hist, c.w)))
  {
    var t := Apply(c, s, e, true);
    var q := t.reqs[i];
    ApplyKeepsHold(c, s, e, true);
    assert Holds(t.rows[i], q.hist, q.start);
    assert Find(e.batch, i) == i;
    assert t.mask[i] == ExactMask(c, t, i) || |q.hist| > c.w;
    if q.start <= Max(0, |q.hist| - c.w) {
      FullDepthIngestedIff(|q.hist|, c.w, q.start);
    }
    if Ingested(t.mask[i], |q.hist|, q.start) {
      IngestedSafe(t.rows[i], t.mask[i], q.hist, q.start);
    }
    if q.start <= Max(0, |q.hist| - c.w) && t.mask[i] == ExactMask(c, t, i) {
      ExposesWindow(t.rows[i], q.hist, q.start);
    }
  }

  /** Whatever stale tokens the rings hold, position i reads nothing outside its request's
      window. */
  ghost predicate PositionSafe<T(!new)>(c: Config, t: Sys<T>, batch: seq<Entry<T>>, i: nat)
    requires Shaped(c, t) && LegalBatch(|t.reqs|, batch) && i < |batch| <= |t.reqs|
  {
    forall rows | Shaped(c, t.(rows := rows)) && AllHold(c, t.(rows := rows)) ::
      multiset(Attended(c, t.(rows := rows), batch, i)) <= multiset(Window(t.reqs[batch[i].row].hist, c.w))
  }

  /** Any mapping of batch positions to rows: whatever stale tokens the rings hold, position i
      reads nothing outside its request's window if and only if the mask row at position i opens
      only slots whose latest position the request has ingested. */
  lemma PositionSafeIff<T(!new)>(c: Config, t: Sys<T>, batch: seq<Entry<T>>, i: nat, stale: T)
    requires Shaped(c, t) && AllHold(c, t) && LegalBatch(|t.reqs|, batch) && i < |batch| <= |t.reqs|
    requires stale !in t.reqs[batch[i].row].hist
    ensures
      var q := t.reqs[batch[i].row];
      Ingested(t.mask[i], |q.hist|, q.start) <==> PositionSafe(c, t, batch, i)
  {
    var r := batch[i].row;
    var q, mask := t.reqs[r], t.mask[i];
    if Ingested(mask, |q.hist|, q.start) {
      forall rows | Shaped(c, t.(rows := rows)) && AllHold(c, t.(rows := rows))
        ensures multiset(Attended(c, t.(rows := rows), batch, i)) <= multiset(Window(q.hist, c.w))
      {
        var u := t.(rows := rows);
        assert Holds(u.rows[r], u.reqs[r].hist, u.reqs[r].start);
        IngestedSafe(u.rows[r], mask, q.hist, q.start);
      }
    } else {
      var bad := StaleRow(q.hist, c.w, q.start, stale);
      var s :| 0 <= s < |mask| && mask[s] && LastAt(|q.hist|, |mask|, s) < q.start;
      UningestedSlotStale(bad, mask, q.hist, q.start, stale, s);
      StaleRowHolds(c, t, r, bad);
      var u := t.(rows := t.rows[r := bad]);
      assert Attended(c, u, batch, i) == Visible(bad, mask);
    }
  }

  lemma StaleRowHolds<T>(c: Config, t: Sys<T>, r: nat, row: seq<T>)
    requires Shaped(c, t) && AllHold(c, t) && r < |t.reqs| && |row| == c.w
    requires Holds(row, t.reqs[r].hist, t.reqs[r].start)
    ensures Shaped(c, t.(rows := t.rows[r := row])) && AllHold(c, t.(rows := t.rows[r := row]))
  {
    var u := t.(rows := t.rows[r := row]);
    forall q | 0 <= q < |u.reqs|
      ensures u.reqs[q].start <= |u.reqs[q].hist| && Holds(u.rows[q], u.reqs[q].hist, u.reqs[q].start)
    {
      assert Holds(t.rows[q], t.reqs[q].hist, t.reqs[q].start);
    }
  }

  /** Which mapping is safe: after a rebuilding step position i is safe for every stale ring
      content if and only if the request that owns row i opens, at its own depth, nothing older
      than the cached prefix of the request at position i; or, when no request in the batch owns
      the row, its old mask did not. */
  lemma MappingSafeIff<T(!new)>(c: Config, s: Sys<T>, e: Event<T>, i: nat, stale: T)
    requires Shaped(c, s) && Legal(s, e) && AllHold(c, s) && e.Step? && i < |e.batch| <= |s.reqs|
    requires !(s.steady && Deep(c, e.batch))
    requires stale !in Apply(c, s, e, true).reqs[e.batch[i].row].hist
    ensures
      var t, owner := Apply(c, s, e, true), Find(e.batch, i);
      var q, depth := t.reqs[e.batch[i].row], Min(|t.reqs[i].hist|, c.w);
      PositionSafe(c, t, e.batch, i) <==>
      if owner < |e.batch| then depth == 0 || q.start <= Oldest(|q.hist|, c.w, depth)
      else Ingested(s.mask[i], |q.hist|, q.start)
  {
    var t, owner := Apply(c, s, e, true), Find(e.batch, i);
    var q, depth := t.reqs[e.batch[i].row], Min(|t.reqs[i].hist|, c.w);
    ApplyKeepsHold(c, s, e, true);
    PositionSafeIff(c, t, e.batch, i, stale);
    if owner < |e.batch| {
      assert t.mask[i] == PrefixMask(depth, c.w);
      PrefixIngestedIff(|q.hist|, c.w, depth, q.start);
    }
  }

  /** At its own position, after a rebuilding step: safe for every stale ring content if and only
      if the cached prefix no longer reaches into the window. */
  lemma OwnPositionSafeIff<T(!new)>(c: Config, s: Sys<T>, e: Event<T>, i: nat, stale: T)
    requires Shaped(c, s) && Legal(s, e) && AllHold(c, s) && e.Step? && i < |e.batch| <= |s.reqs|
    requires e.batch[i].row == i && !(s.steady && Deep(c, e.batch))
    requires stale !in Apply(c, s, e, true).reqs[i].hist
    ensures
      var t := Apply(c, s, e, true);
      var q := t.reqs[i];
      PositionSafe(c, t, e.batch, i) <==> q.start <= Max(0, |q.hist| - c.w)
  {
    var t := Apply(c, s, e, true);
    ApplyKeepsHold(c, s, e, true);
    assert Find(e.batch, i) == i;
    assert t.reqs[i].start <= |t.reqs[i].hist|;
    PositionSafeIff(c, t, e.batch, i, stale);
    FullDepthIngestedIff(|t.reqs[i].hist|, c.w, t.reqs[i].start);
  }

  /** A request admitted with a cache hit, and the first chunk of the rest of its prompt. */
  function PrefillRun<T>(prefix: seq<T>, chunk: seq<T>): seq<Event<T>> {
    [Admit(0, prefix), Step([Entry(0, chunk, 0, |prefix| + |chunk|)])]
  }

  /** The failing prefill step: on a ring of stale tokens, a hit within the trim followed by a
      chunk shorter than the window shows stale tokens at the request's own position. */
  lemma PrefillShowsStale<T>(c: Config, s: Sys<T>, prompt: seq<T>, hit: nat, chunk: nat, stale: T)
    requires Initial(c, s) && |s.rows| > 0 && (forall p | 0 <= p < c.w :: s.rows[0][p] == stale)
    requires 0 < hit && 0 < chunk < c.w && hit + chunk <= |prompt| && hit <= MaxHitLength(|prompt|, c.w)
    requires stale !in prompt
    ensures
      var run := PrefillRun(prompt[..hit], prompt[hit..hit + chunk]);
      && LegalRun(c, s, run)
      && var t := Run(c, s, run, true);
         && t.reqs[0].hist == prompt[..hit + chunk]
         && stale in Attended(c, t, run[1].batch, 0) && stale !in Window(t.reqs[0].hist, c.w)
  {
    var prefix, rest := prompt[..hit], prompt[hit..hit + chunk];
    var run := PrefillRun(prefix, rest);
    var s1 := Apply(c, s, run[0], true);
    var t := Apply(c, s1, run[1], true);
    assert run[1..] == [run[1]] && run[1..][1..] == [];
    assert LegalRun(c, t, []) && Run(c, t, [], true) == t;
    assert LegalRun(c, s1, run[1..]) && Run(c, s1, run[1..], true) == t;
    PrefillStep(c, s1, prefix, rest, stale);
    assert prefix + rest == prompt[..hit + chunk];
  }

  lemma PrefillStep<T>(c: Config, s: Sys<T>, prefix: seq<T>, rest: seq<T>, stale: T)
    requires Shaped(c, s) && !s.steady && |s.reqs| > 0 && s.reqs[0] == Req(prefix, |prefix|)
    requires forall p | 0 <= p < c.w :: s.rows[0][p] == stale
    requires prefix != [] && 0 < |rest| < c.w
    ensures
      var e := Step([Entry(0, rest, 0, |prefix| + |rest|)]);
      && Legal(s, e)
      && var t := Apply(c, s, e, true);
         t.reqs[0].hist == prefix + rest && stale in Attended(c, t, e.batch, 0)
  {
    var e := Step([Entry(0, rest, 0, |prefix| + |rest|)]);
    var t := Apply(c, s, e, true);
    var n := |prefix| + |rest|;
    assert Find(e.batch, 0) == 0 && Accepted(e.batch[0]) == rest;
    var slot := CachedSlotKept(s.rows[0], prefix + rest, |prefix|);
    assert (prefix + rest)[|prefix|..] == rest;
    assert t.rows[0][slot] == stale && t.mask[0] == PrefixMask(Min(n, c.w), c.w);
    VisibleHas(t.rows[0], t.mask[0], slot);
  }

  /** One such run: a ring of three slots, a prompt of six tokens, a hit of two and a first chunk
      of one. */
  lemma PrefillExample(s: Sys<int>)
    requires Initial(Config(3, 1), s) && s.rows == [[9, 9, 9]]
    ensures
      var run := PrefillRun([1, 2], [3]);
      LegalRun(Config(3, 1), s, run) && 9 in Attended(Config(3, 1), Run(Config(3, 1), s, run, true), run[1].batch, 0)
  {
    var prompt := [1, 2, 3, 4, 5, 6];
    assert prompt[..2] == [1, 2] && prompt[2..2 + 1] == [3];
    PrefillShowsStale(Config(3, 1), s, prompt, 2, 1, 9);
  }

  /** Mask rows are written by ring row but read by batch position: after a rebuilding step
      position i reads the mask its request needs if and only if the request that owns row i
      is clamped to the same depth, or no request in the batch owns row i and the old mask
      row already had that depth. */
  lemma PositionReadsRightMaskIff<T>(c: Config, s: Sys<T>, e: Event<T>, i: nat)
    requires Shaped(c, s) && Legal(s, e) && e.Step? && i < |e.batch| <= |s.reqs|
    requires !(s.steady && Deep(c, e.batch))
    ensures
      var t, owner := Apply(c, s, e, true), Find(e.batch, i);
      var need := Min(|NewReq(s.reqs, e.batch, e.batch[i].row).hist|, c.w);
      t.mask[i] == ExactMask(c, t, e.batch[i].row) <==>
      if owner < |e.batch| then Min(|NewReq(s.reqs, e.batch, i).hist|, c.w) == need
      else s.mask[i] == PrefixMask(need, c.w)
  {
    var t, owner := Apply(c, s, e, true), Find(e.batch, i);
    if owner < |e.batch| {
      var have, need := Min(|NewReq(s.reqs, e.batch, i).hist|, c.w),
          Min(|NewReq(s.reqs, e.batch, e.batch[i].row).hist|, c.w);
      if have != need {
        PrefixMaskInjective(have, need, c.w);
      }
    }
  }

  /** One step at an identity-mapped position with a rebuilt or open mask shows the window. */
  lemma StepShowsWindow<T>(c: Config, t: Sys<T>, e: Event<T>, i: nat)
    requires Shaped(c, t) && AllHold(c, t) && Legal(t, e) && e.Step? && Slack(c, t, e)
    requires i < |e.batch| <= |t.reqs| && e.batch[i].row == i
    requires t.steady && Deep(c, e.batch) ==> t.mask[i] == PrefixMask(c.w, c.w)
    requires t.reqs[i].start <= Max(0, |NewReq(t.reqs, e.batch, i).hist| - c.w)
    ensures
      var u := Apply(c, t, e, true);
      && u.reqs[i].hist == t.reqs[i].hist + Accepted(e.batch[i])
      && multiset(Attended(c, u, e.batch, i)) == multiset(Window(u.reqs[i].hist, c.w))
  {
    assert Find(e.batch, i) == i;
    StepExposure(c, t, e, i);
    SkipExactIff(c, t, e, i);
  }

  /** End to end: after every legal run from start-up and one more step, a batch entry whose row
      is its batch position (and whose mask row was rebuilt or already open) is shown exactly the
      last min(n, w) accepted tokens of its request, provided its cache hit was within the
      trim. */
  lemma AttentionSeesWindow<T>(c: Config, s: Sys<T>, run: seq<Event<T>>, e: Event<T>, i: nat)
    requires Initial(c, s) && LegalRun(c, s, run)
    requires
      var t := Run(c, s, run, true);
      && Legal(t, e) && e.Step? && Slack(c, t, e) && i < |e.batch| <= |s.reqs|
      && e.batch[i].row == i
      && (t.steady && Deep(c, e.batch) ==> t.mask[i] == PrefixMask(c.w, c.w))
      && t.reqs[i].start <= Max(0, |NewReq(t.reqs, e.batch, i).hist| - c.w)
    ensures
      var t := Run(c, s, run, true);
      var u := Apply(c, t, e, true);
      && u.reqs[i].hist == t.reqs[i].hist + Accepted(e.batch[i])
      && multiset(Attended(c, u, e.batch, i)) == multiset(Window(u.reqs[i].hist, c.w))
  {
    RunHolds(c, s, run, true);
    StepShowsWindow(c, Run(c, s, run, true), e, i);
  }
}
