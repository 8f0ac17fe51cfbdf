/** The training loader against the serving runs it was captured from: what a request is shown
    at a step is the training sample at its accepted length. */
module TrainingServing {
  import opened Prelude
  import opened DraftRing
  import Ring = RingRuns
  import Loader = TrainingStreams

  // ---- the steps of one row ----

  /** The batch entries of a row since its last admission, after one more event. */
  function NextEntries<T>(e: Ring.Event<T>, row: nat, earlier: seq<Ring.Entry<T>>): seq<Ring.Entry<T>> {
    match e
    case Admit(r, _) => if r == row then [] else earlier
    case Step(batch) =>
      var i := Ring.Find(batch, row);
      if i < |batch| then earlier + [batch[i]] else earlier
  }

  /** The same after a whole run. */
  function RowEntries<T>(run: seq<Ring.Event<T>>, row: nat, earlier: seq<Ring.Entry<T>>): seq<Ring.Entry<T>>
    decreases |run|
  {
    if run == [] then earlier else RowEntries(run[1..], row, NextEntries(run[0], row, earlier))
  }

  /** The tokens the entries of a row have had accepted. */
  function AcceptedOf<T>(entries: seq<Ring.Entry<T>>): seq<T> {
    if entries == [] then []
    else
      var e := entries[|entries| - 1];
      AcceptedOf(entries[..|entries| - 1]) + e.block[..Max(0, |e.block| - e.rejected)]
  }

  lemma AcceptedOfMore<T>(entries: seq<Ring.Entry<T>>, e: Ring.Entry<T>)
    requires e.rejected <= |e.block|
    ensures AcceptedOf(entries + [e]) == AcceptedOf(entries) + Ring.Accepted(e)
  {
    assert (entries + [e])[..|entries|] == entries;
  }

  /** Past its cached prefix a request's history is what its entries had accepted. */
  ghost predicate Tracks<T>(s: Ring.Sys<T>, row: nat, entries: seq<Ring.Entry<T>>)
    requires row < |s.reqs|
  {
    var q := s.reqs[row];
    q.start <= |q.hist| && q.hist[q.start..] == AcceptedOf(entries)
  }

  lemma EventTracks<T>(c: Ring.Config, s: Ring.Sys<T>, e: Ring.Event<T>, row: nat, earlier: seq<Ring.Entry<T>>)
    requires Ring.Shaped(c, s) && Ring.Legal(s, e) && row < |s.reqs| && Tracks(s, row, earlier)
    ensures Tracks(Ring.Apply(c, s, e, true), row, NextEntries(e, row, earlier))
  {
    match e
    case Admit(r, prefix) =>
    case Step(batch) =>
      var i := Ring.Find(batch, row);
      if i < |batch| {
        AcceptedOfMore(earlier, batch[i]);
        SuffixGrows(s.reqs[row].hist, s.reqs[row].start, Ring.Accepted(batch[i]));
      }
  }

  lemma SuffixGrows<T>(hist: seq<T>, start: nat, more: seq<T>)
    requires start <= |hist|
    ensures (hist + more)[start..] == hist[start..] + more
  {
  }

  /** Over every run. */
  lemma {:induction false} RunTracks<T>(c: Ring.Config, s: Ring.Sys<T>, run: seq<Ring.Event<T>>, row: nat,
      earlier: seq<Ring.Entry<T>>)
    requires Ring.Shaped(c, s) && Ring.LegalRun(c, s, run) && row < |s.reqs| && Tracks(s, row, earlier)
    ensures Tracks(Ring.Run(c, s, run, true), row, RowEntries(run, row, earlier))
    decreases |run|
  {
    if run != [] {
      EventTracks(c, s, run[0], row, earlier);
      RunTracks(c, Ring.Apply(c, s, run[0], true), run[1..], row, NextEntries(run[0], row, earlier));
    }
  }

  // ---- what was captured of them ----

  /** A captured step's tokens as the ring is given them: (position, hidden state). */
  function Block<A>(first: nat, toks: seq<Loader.Tok<A>>): (block: seq<(int, A)>)
    ensures |block| == |toks|
  {
    seq(|toks|, j requires 0 <= j < |toks| => (first + j, toks[j].aux))
  }

  /** Every entry was captured: its tokens, from the position the history had reached, cached
      prefix included, and how many of them were rejected. */
  ghost predicate Captured<A>(entries: seq<Ring.Entry<(int, A)>>, start: nat, steps: seq<Loader.Step<A>>) {
    |entries| == |steps| && forall i | 0 <= i < |steps| :: CapturedAt(entries[i], start, steps, i)
  }

  ghost predicate CapturedAt<A>(e: Ring.Entry<(int, A)>, start: nat, steps: seq<Loader.Step<A>>, i: nat)
    requires i < |steps|
  {
    e.rejected == steps[i].rejected && e.block == Block(start + |Loader.Accepted(steps[..i])|, steps[i].toks)
  }

  /** The accepted tokens of the entries are the accepted history the loader rebuilds. */
  lemma {:induction false} CapturedHistory<A>(entries: seq<Ring.Entry<(int, A)>>, start: nat,
                                              steps: seq<Loader.Step<A>>)
    requires Captured(entries, start, steps)
    ensures AcceptedOf(entries) == Loader.ServedPairs(start, Loader.Accepted(steps))
  {
    if steps != [] {
      var n := |steps| - 1;
      var before, s, e := steps[..n], steps[n], entries[n];
      forall i | 0 <= i < n ensures CapturedAt(entries[..n][i], start, before, i) {
        assert CapturedAt(entries[i], start, steps, i) && before[..i] == steps[..i];
      }
      CapturedHistory(entries[..n], start, before);
      assert CapturedAt(e, start, steps, n);
      LastStepPairs(start, Loader.Accepted(before), s.toks, Max(0, |s.toks| - s.rejected));
    }
  }

  lemma LastStepPairs<A>(start: nat, hist: seq<Loader.Tok<A>>, toks: seq<Loader.Tok<A>>, m: nat)
    requires m <= |toks|
    ensures Loader.ServedPairs(start, hist) + Block(start + |hist|, toks)[..m] ==
            Loader.ServedPairs(start, hist + toks[..m])
  {
  }

  // ---- the comparison ----

  /** Training windows equal serving windows. Take any legal serving run from start-up and one
      more step, with cache hits, rejections, other requests and skipped mask rebuilds; a request
      in that step's batch, at its own batch position, whose mask row was rebuilt or already
      open; and its captured steps, alone in their stream, of which `done` have been served so
      far. The (position, hidden state) pairs attention is then shown are exactly those of the
      training sample at the request's length. Nothing is asked of the cache hit: the loader's
      hole check keeps windows out of the cached prefix. */
  lemma ServedWindowIsSample<A>(c: Ring.Config, s: Ring.Sys<(int, A)>, run: seq<Ring.Event<(int, A)>>,
                                e: Ring.Event<(int, A)>, i: nat, start: nat, steps: seq<Loader.Step<A>>, done: nat,
                                k: nat, idx: Loader.Index, a: nat, aux: seq<A>, pos: seq<int>, pad: seq<bool>)
    requires ServedTo(c, s, run, e, i, start, steps, done, a) && |aux| == c.w
    requires Loader.LegalSteps(steps, k) && Loader.IsIndex(Loader.Kept(Loader.Capture(start, steps)), idx)
    requires Loader.NoHole(idx, Max(0, a - c.w), a, k)
    requires Loader.IsSample(Loader.Kept(Loader.Capture(start, steps)), idx, a, aux, pos, pad)
    ensures
      var u := Ring.Apply(c, Ring.Run(c, s, run, true), e, true);
      multiset(Ring.Attended(c, u, e.batch, i)) == multiset(Loader.Pairs(aux, pos, pad))
  {
    var hist := Ring.Apply(c, Ring.Run(c, s, run, true), e, true).reqs[i].hist;
    ServedHistory(c, s, run, e, i, start, steps[..done]);
    AcceptedPrefix(steps, done);
    Loader.SampleIsWindow(start, steps, k, idx, a, hist, aux, pos, pad);
    ShownWindow(c, s, run, e, i, start, steps, done, a);
  }

  /** The same for a request in a stream shared with others, as stitching leaves one with a cache
      hit that followed another request: for windows clear of its cached prefix and of every
      later request's files, which the loader does not check. */
  lemma ServedWindowIsSharedSample<A>(c: Ring.Config, s: Ring.Sys<(int, A)>, run: seq<Ring.Event<(int, A)>>,
                                      e: Ring.Event<(int, A)>, i: nat, earlier: seq<Loader.File<A>>, start: nat,
                                      steps: seq<Loader.Step<A>>, later: seq<Loader.File<A>>, done: nat,
                                      idx: Loader.Index, a: nat, aux: seq<A>, pos: seq<int>, pad: seq<bool>)
    requires ServedTo(c, s, run, e, i, start, steps, done, a) && |aux| == c.w
    requires Loader.IsIndex(earlier + Loader.Capture(start, steps) + later, idx)
    requires Loader.IsSample(earlier + Loader.Capture(start, steps) + later, idx, a, aux, pos, pad)
    requires start <= Max(0, a - c.w) && forall q: nat | Max(0, a - c.w) <= q < a :: Loader.Uncovered(later, q)
    ensures
      var u := Ring.Apply(c, Ring.Run(c, s, run, true), e, true);
      multiset(Ring.Attended(c, u, e.batch, i)) == multiset(Loader.Pairs(aux, pos, pad))
  {
    var hist := Ring.Apply(c, Ring.Run(c, s, run, true), e, true).reqs[i].hist;
    ServedHistory(c, s, run, e, i, start, steps[..done]);
    AcceptedPrefix(steps, done);
    Loader.SharedSampleIsWindow(earlier, start, steps, later, idx, a, hist, aux, pos, pad);
    ShownWindow(c, s, run, e, i, start, steps, done, a);
  }

  /** After a legal run from start-up and step e, the request at position i, its own row, has had
      `done` of its captured steps served and reached length a; its mask row was rebuilt or
      already open. */
  ghost predicate ServedTo<A>(c: Ring.Config, s: Ring.Sys<(int, A)>, run: seq<Ring.Event<(int, A)>>,
                              e: Ring.Event<(int, A)>, i: nat, start: nat, steps: seq<Loader.Step<A>>, done: nat,
                              a: nat)
  {
    && Ring.Initial(c, s) && Ring.LegalRun(c, s, run)
    && var t := Ring.Run(c, s, run, true);
       && Ring.Legal(t, e) && e.Step? && Ring.Slack(c, t, e) && i < |e.batch| <= |s.reqs|
       && e.batch[i].row == i && start == t.reqs[i].start
       && (t.steady && Ring.Deep(c, e.batch) ==> t.mask[i] == PrefixMask(c.w, c.w))
       && done <= |steps| && Captured(RowEntries(run + [e], i, []), start, steps[..done])
       && a == start + |Loader.Accepted(steps[..done])|
  }

  /** It is shown the window of its history, once the cached prefix is out of it. */
  lemma ShownWindow<A>(c: Ring.Config, s: Ring.Sys<(int, A)>, run: seq<Ring.Event<(int, A)>>, e: Ring.Event<(int, A)>,
                       i: nat, start: nat, steps: seq<Loader.Step<A>>, done: nat, a: nat)
    requires ServedTo(c, s, run, e, i, start, steps, done, a) && start <= Max(0, a - c.w)
    ensures
      var u := Ring.Apply(c, Ring.Run(c, s, run, true), e, true);
      multiset(Ring.Attended(c, u, e.batch, i)) == multiset(Window(u.reqs[i].hist, c.w))
  {
    var t := Ring.Run(c, s, run, true);
    ServedHistory(c, s, run, e, i, start, steps[..done]);
    assert Ring.NewReq(t.reqs, e.batch, i) == Ring.Apply(c, t, e, true).reqs[i];
    Ring.AttentionSeesWindow(c, s, run, e, i);
  }

  lemma AcceptedPrefix<A>(steps: seq<Loader.Step<A>>, done: nat)
    requires done <= |steps|
    ensures
      var hist := Loader.Accepted(steps[..done]);
      |hist| <= |Loader.Accepted(steps)| && Loader.Accepted(steps)[..|hist|] == hist
  {
    Loader.AcceptedUpTo(steps, done);
  }

  /** After any run and one more step a request has, past its cached prefix, the history its
      captured steps spell out. */
  lemma ServedHistory<A>(c: Ring.Config, s: Ring.Sys<(int, A)>, run: seq<Ring.Event<(int, A)>>, e: Ring.Event<(int, A)>,
                         row: nat, start: nat, steps: seq<Loader.Step<A>>)
    requires Ring.Initial(c, s) && Ring.LegalRun(c, s, run) && Ring.Legal(Ring.Run(c, s, run, true), e)
    requires e.Step? && row < |s.reqs| && start == Ring.Run(c, s, run, true).reqs[row].start
    requires Captured(RowEntries(run + [e], row, []), start, steps)
    ensures
      var q := Ring.Apply(c, Ring.Run(c, s, run, true), e, true).reqs[row];
      && q.start == start <= |q.hist| == start + |Loader.Accepted(steps)|
      && q.hist[start..] == Loader.ServedPairs(start, Loader.Accepted(steps))
  {
    var t := Ring.Run(c, s, run, true);
    RunTracks(c, s, run, row, []);
    EntriesOneMore(run, e, row, []);
    EventTracks(c, t, e, row, RowEntries(run, row, []));
    CapturedHistory(RowEntries(run + [e], row, []), start, steps);
  }

  lemma {:induction false} EntriesOneMore<T>(run: seq<Ring.Event<T>>, e: Ring.Event<T>, row: nat,
      earlier: seq<Ring.Entry<T>>)
    ensures RowEntries(run + [e], row, earlier) == NextEntries(e, row, RowEntries(run, row, earlier))
    decreases |run|
  {
    if run == [] {
      assert (run + [e])[1..] == [];
    } else {
      assert (run + [e])[1..] == run[1..] + [e];
      EntriesOneMore(run[1..], e, row, NextEntries(run[0], row, earlier));
    }
  }
}
