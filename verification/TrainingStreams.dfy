/** The offline loader that rebuilds the serving window from per-step captures: files are
    stitched into streams, overlaps resolve to the later file, and windows are read back in
    file runs through a small FIFO cache. */
module TrainingStreams {
  import opened Prelude
  import opened DraftRing

  /** One captured token: its auxiliary hidden state and its id. */
  datatype Tok<A> = Tok(aux: A, id: int)

  /** One capture file: a serving step's first position and its tokens. */
  datatype File<A> = File(first: nat, toks: seq<Tok<A>>)

  /** One serving step of a request: the tokens the target ran, the last `rejected` refused. */
  datatype Step<A> = Step(toks: seq<Tok<A>>, rejected: nat)

  /** Steps a request can take with draft depth `k`: a token survives, at most `k` are refused. */
  predicate LegalSteps<A>(steps: seq<Step<A>>, k: nat) {
    forall i | 0 <= i < |steps| :: steps[i].rejected < |steps[i].toks| && steps[i].rejected <= k
  }

  /** The request's accepted tokens. */
  function Accepted<A>(steps: seq<Step<A>>): seq<Tok<A>> {
    if steps == [] then []
    else
      var s := steps[|steps| - 1];
      Accepted(steps[..|steps| - 1]) + s.toks[..Max(0, |s.toks| - s.rejected)]
  }

  /** A served request: the length of its cached prefix, which is never run, and its steps. */
  datatype Request<A> = Request(start: nat, steps: seq<Step<A>>)

  /** What every-step capture saves for a request: each file starts where the history, cached
      prefix and accepted tokens, ended. */
  function Capture<A>(start: nat, steps: seq<Step<A>>): (files: seq<File<A>>)
    ensures |files| == |steps|
  {
    if steps == [] then []
    else
      var before := steps[..|steps| - 1];
      Capture(start, before) + [File(start + |Accepted(before)|, steps[|steps| - 1].toks)]
  }

  lemma {:induction false} CaptureAt<A>(start: nat, steps: seq<Step<A>>, i: nat)
    requires i < |steps|
    ensures Capture(start, steps)[i] == File(start + |Accepted(steps[..i])|, steps[i].toks)
  {
    if i < |steps| - 1 {
      CaptureAt(start, steps[..|steps| - 1], i);
      assert steps[..|steps| - 1][..i] == steps[..i];
    }
  }

  lemma {:induction false} AcceptedMono<A>(steps: seq<Step<A>>, i: nat, j: nat)
    requires i <= j <= |steps|
    ensures Accepted(steps[..i]) <= Accepted(steps[..j])
    decreases j - i
  {
    if i < j {
      AcceptedMono(steps, i, j - 1);
      assert steps[..j][..j - 1] == steps[..j - 1];
    }
  }

  // ---- stitching files into streams ----

  /** Add one file: position 0 (or the very first file) opens a stream, empty files are ignored. */
  function StitchFile<A>(streams: seq<seq<File<A>>>, f: File<A>): seq<seq<File<A>>> {
    if f.toks == [] then streams
    else if f.first == 0 || streams == [] then streams + [[f]]
    else streams[|streams| - 1 := streams[|streams| - 1] + [f]]
  }

  function Stitched<A>(files: seq<File<A>>): seq<seq<File<A>>> {
    if files == [] then []
    else StitchFile(Stitched(files[..|files| - 1]), files[|files| - 1])
  }

  method Stitch<A>(files: seq<File<A>>) returns (raw: seq<seq<File<A>>>)
    ensures raw == Stitched(files)
  {
    raw := [];
    for i := 0 to |files|
      invariant raw == Stitched(files[..i])
    {
      ghost var was := raw;
      assert files[..i + 1][..i] == files[..i];
      var f := files[i];
      if |f.toks| == 0 {
        continue;
      }
      if f.first == 0 || raw == [] {
        raw := raw + [[]];
      }
      var cur := raw[|raw| - 1];
      raw := raw[|raw| - 1 := cur + [f]];
      if f.first == 0 || was == [] {
        assert cur == [] && cur + [f] == [f];
        assert raw == was + [[f]];
      }
    }
    assert files[..|files|] == files;
  }

  /** An empty capture file changes nothing, wherever it stands. */
  lemma {:induction false} EmptyFileIgnored<A>(a: seq<File<A>>, empty: File<A>, b: seq<File<A>>)
    requires empty.toks == []
    ensures Stitched(a + [empty] + b) == Stitched(a + b)
  {
    if b == [] {
      assert a + [empty] + b == a + [empty] && a + b == a;
      assert (a + [empty])[..|a|] == a;
    } else {
      var n := |b| - 1;
      EmptyFileIgnored(a, empty, b[..n]);
      assert (a + [empty] + b)[..|a| + 1 + n] == a + [empty] + b[..n];
      assert (a + b)[..|a| + n] == a + b[..n];
    }
  }

  /** The files of requests served one after the other. */
  function Captures<A>(requests: seq<Request<A>>): seq<File<A>> {
    if requests == [] then []
    else
      var last := requests[|requests| - 1];
      Captures(requests[..|requests| - 1]) + Capture(last.start, last.steps)
  }

  function CaptureEach<A>(requests: seq<Request<A>>): (streams: seq<seq<File<A>>>)
    ensures |streams| == |requests|
  {
    seq(|requests|, r requires 0 <= r < |requests| => Capture(requests[r].start, requests[r].steps))
  }

  /** A request's files put into a stream of their own, or after those of the last stream. */
  function Placed<A>(streams: seq<seq<File<A>>>, start: nat, files: seq<File<A>>): seq<seq<File<A>>> {
    if start == 0 || streams == [] then streams + [files]
    else streams[|streams| - 1 := streams[|streams| - 1] + files]
  }

  /** The streams request by request: one with a cached prefix joins its predecessor's. */
  function Grouped<A>(requests: seq<Request<A>>): seq<seq<File<A>>> {
    if requests == [] then []
    else
      var last := requests[|requests| - 1];
      Placed(Grouped(requests[..|requests| - 1]), last.start, Capture(last.start, last.steps))
  }

  ghost predicate LegalRequests<A>(requests: seq<Request<A>>, k: nat) {
    forall r | 0 <= r < |requests| :: requests[r].steps != [] && LegalSteps(requests[r].steps, k)
  }

  lemma {:induction false} StitchOneMore<A>(files: seq<File<A>>, start: nat, steps: seq<Step<A>>, k: nat)
    requires steps != [] && LegalSteps(steps, k)
    ensures Stitched(files + Capture(start, steps)) == Placed(Stitched(files), start, Capture(start, steps))
  {
    var n := |steps| - 1;
    var before, f := steps[..n], File(start + |Accepted(steps[..n])|, steps[n].toks);
    StitchedLast(files, Capture(start, before), f);
    if n == 0 {
      assert files + Capture(start, before) == files;
      assert Capture(start, steps) == [f];
    } else {
      StitchOneMore(files, start, before, k);
      assert before[..n - 1] == steps[..n - 1];
      PlacedThenFile(Stitched(files), start, Capture(start, before), f);
    }
  }

  lemma StitchedLast<A>(files: seq<File<A>>, own: seq<File<A>>, f: File<A>)
    ensures Stitched(files + (own + [f])) == StitchFile(Stitched(files + own), f)
  {
    assert files + (own + [f]) == files + own + [f];
    assert (files + own + [f])[..|files + own|] == files + own;
  }

  /** A file past position 0 follows the request's earlier ones. */
  lemma PlacedThenFile<A>(streams: seq<seq<File<A>>>, start: nat, files: seq<File<A>>, f: File<A>)
    requires f.toks != [] && f.first != 0
    ensures StitchFile(Placed(streams, start, files), f) == Placed(streams, start, files + [f])
  {
    var placed := Placed(streams, start, files);
    var last := |placed| - 1;
    if start == 0 || streams == [] {
      assert placed[last := files + [f]] == streams + [files + [f]];
    } else {
      assert streams[last] + files + [f] == streams[last] + (files + [f]);
    }
  }

  /** What stitching makes of requests served one after the other. */
  lemma {:induction false} StitchGroupsRequests<A>(requests: seq<Request<A>>, k: nat)
    requires LegalRequests(requests, k)
    ensures Stitched(Captures(requests)) == Grouped(requests)
  {
    if requests != [] {
      var n := |requests| - 1;
      StitchGroupsRequests(requests[..n], k);
      StitchOneMore(Captures(requests[..n]), requests[n].start, requests[n].steps, k);
    }
  }

  lemma {:induction false} GroupedEach<A>(requests: seq<Request<A>>)
    ensures |Grouped(requests)| <= |requests| && (requests != [] ==> Grouped(requests) != [])
    ensures (forall r | 1 <= r < |requests| :: requests[r].start == 0) ==> Grouped(requests) == CaptureEach(requests)
    ensures (exists r :: 1 <= r < |requests| && requests[r].start != 0) ==> |Grouped(requests)| < |requests|
  {
    if requests != [] {
      var n := |requests| - 1;
      var last := requests[n];
      GroupedEach(requests[..n]);
      assert CaptureEach(requests) == CaptureEach(requests[..n]) + [Capture(last.start, last.steps)];
      if r :| 1 <= r < |requests| && requests[r].start != 0 && r < n {
        assert requests[..n][r].start != 0;
      }
    }
  }

  /** Requests served one after the other, whatever their cached prefixes: their files are cut
      back into exactly one stream per request if and only if every request after the first
      starts at position 0. */
  lemma {:induction false} StitchRecoversIff<A>(requests: seq<Request<A>>, k: nat)
    requires LegalRequests(requests, k)
    ensures Stitched(Captures(requests)) == CaptureEach(requests) <==>
            forall r | 1 <= r < |requests| :: requests[r].start == 0
  {
    StitchGroupsRequests(requests, k);
    GroupedEach(requests);
  }

  /** A stream's kept files: a short last file is dropped as the unverified frontier. */
  function Kept<A>(stream: seq<File<A>>): (kept: seq<File<A>>) {
    if |stream| > 1 && |stream[|stream| - 1].toks| < 64 then stream[..|stream| - 1] else stream
  }

  // ---- the later-file-wins index ----

  type Index = map<nat, (nat, nat)>

  predicate Covers<A>(f: File<A>, q: int) {
    f.first <= q < f.first + |f.toks|
  }

  /** Position q is indexed by the last file that covers it. */
  ghost predicate LastCover<A>(files: seq<File<A>>, q: nat, at: (nat, nat)) {
    && at.0 < |files| && Covers(files[at.0], q) && at.1 == q - files[at.0].first
    && forall j | at.0 < j < |files| :: !Covers(files[j], q)
  }

  ghost predicate IsIndex<A>(files: seq<File<A>>, idx: Index) {
    && (forall q | q in idx :: LastCover(files, q, idx[q]))
    && (forall j, q: nat | 0 <= j < |files| && Covers(files[j], q) :: q in idx)
  }

  /** Build the index by overwriting, file by file and token by token. */
  method BuildIndex<A>(files: seq<File<A>>) returns (idx: Index)
    ensures IsIndex(files, idx)
  {
    idx := map[];
    for i := 0 to |files|
      invariant IsIndex(files[..i], idx)
    {
      var f := files[i];
      ghost var was := idx;
      for off := 0 to |f.toks|
        invariant forall q: nat :: q in idx <==> q in was || f.first <= q < f.first + off
        invariant forall q | q in idx ::
          idx[q] == if f.first <= q < f.first + off then (i, q - f.first) else was[q]
      {
        idx := idx[f.first + off := (i, off)];
      }
      assert files[..i + 1] == files[..i] + [f];
    }
    assert files[..|files|] == files;
  }

  /** What the index reads at a position. */
  function Read<A>(files: seq<File<A>>, idx: Index, q: nat): Tok<A>
    requires q in idx && idx[q].0 < |files| && idx[q].1 < |files[idx[q].0].toks|
  {
    files[idx[q].0].toks[idx[q].1]
  }

  /** The step that accepted position q. */
  lemma {:induction false} AcceptingStep<A>(steps: seq<Step<A>>, q: nat) returns (i: nat)
    requires q < |Accepted(steps)|
    ensures i < |steps| && |Accepted(steps[..i])| <= q < |Accepted(steps[..i + 1])|
    ensures q - |Accepted(steps[..i])| < |steps[i].toks|
    ensures Accepted(steps)[q] == steps[i].toks[q - |Accepted(steps[..i])|]
  {
    var n := |steps| - 1;
    if |Accepted(steps[..n])| <= q {
      i := n;
      assert steps[..n + 1] == steps;
    } else {
      i := AcceptingStep(steps[..n], q);
      assert steps[..n][..i] == steps[..i] && steps[..n][..i + 1] == steps[..i + 1];
    }
  }

  /** After the step that accepted q, no later file covers q. */
  lemma NotCoveredLater<A>(start: nat, steps: seq<Step<A>>, i: nat, j: nat, q: nat)
    requires i < j < |steps| && q < start + |Accepted(steps[..i + 1])|
    ensures !Covers(Capture(start, steps)[j], q)
  {
    CaptureAt(start, steps, j);
    AcceptedMono(steps, i + 1, j);
  }

  /** Position q is read from a request whose files come after those of `earlier`, from the step
      that accepted it. */
  ghost predicate ReadsAccepted<A>(earlier: seq<File<A>>, start: nat, steps: seq<Step<A>>, idx: Index, q: nat)
    requires q in idx
  {
    var i := idx[q].0 - |earlier|;
    0 <= i < |steps| && start <= q < start + |Accepted(steps[..i + 1])|
  }

  ghost predicate Uncovered<A>(files: seq<File<A>>, q: nat) {
    forall f | f in files :: !Covers(f, q)
  }

  /** In a stream that may hold other requests before and after: a position is read from the step
      of this request that accepted it if and only if the request ran and accepted it and no
      later request's file covers it. */
  lemma MergedReadIff<A>(earlier: seq<File<A>>, start: nat, steps: seq<Step<A>>, later: seq<File<A>>,
                         idx: Index, q: nat)
    requires IsIndex(earlier + Capture(start, steps) + later, idx) && q in idx
    ensures
      ReadsAccepted(earlier, start, steps, idx, q) <==>
      start <= q < start + |Accepted(steps)| && Uncovered(later, q)
    ensures
      ReadsAccepted(earlier, start, steps, idx, q) ==>
        Read(earlier + Capture(start, steps) + later, idx, q) == Accepted(steps)[q - start]
  {
    var at := idx[q];
    assert LastCover(earlier + Capture(start, steps) + later, q, at);
    if start <= q < start + |Accepted(steps)| && Uncovered(later, q) {
      var i := AcceptedFrom(start, steps, q);
      AcceptedLast(earlier, start, steps, later, q, i, at);
    }
    if ReadsAccepted(earlier, start, steps, idx, q) {
      AcceptedRead(earlier, start, steps, later, q, at.0 - |earlier|, at);
    }
  }

  lemma AcceptedRead<A>(earlier: seq<File<A>>, start: nat, steps: seq<Step<A>>, later: seq<File<A>>, q: nat, i: nat,
                        at: (nat, nat))
    requires i < |steps| && at.0 == |earlier| + i && start <= q < start + |Accepted(steps[..i + 1])|
    requires LastCover(earlier + Capture(start, steps) + later, q, at)
    ensures q < start + |Accepted(steps)| && Uncovered(later, q)
    ensures
      var toks := (earlier + Capture(start, steps) + later)[at.0].toks;
      at.1 < |toks| && toks[at.1] == Accepted(steps)[q - start]
  {
    var files, own := earlier + Capture(start, steps) + later, Capture(start, steps);
    forall f | f in later ensures !Covers(f, q) {
      var j :| 0 <= j < |later| && later[j] == f;
      assert files[|earlier| + |own| + j] == f;
    }
    assert files[at.0] == own[i];
    CaptureAt(start, steps, i);
    ReadFromStep(start, steps, q, i);
  }

  lemma AcceptedUpTo<A>(steps: seq<Step<A>>, n: nat)
    requires n <= |steps|
    ensures Accepted(steps[..n]) <= Accepted(steps)
  {
    AcceptedMono(steps, n, |steps|);
    assert steps[..|steps|] == steps;
  }

  /** The step that accepted q, and its file. */
  lemma AcceptedFrom<A>(start: nat, steps: seq<Step<A>>, q: nat) returns (i: nat)
    requires start <= q < start + |Accepted(steps)|
    ensures i < |steps| && start + |Accepted(steps[..i])| <= q < start + |Accepted(steps[..i + 1])|
    ensures Covers(Capture(start, steps)[i], q)
  {
    i := AcceptingStep(steps, q - start);
    CaptureAt(start, steps, i);
  }

  /** It is the last file to cover q if no later request's file does. */
  lemma AcceptedLast<A>(earlier: seq<File<A>>, start: nat, steps: seq<Step<A>>, later: seq<File<A>>, q: nat, i: nat,
                        at: (nat, nat))
    requires i < |steps| && q < start + |Accepted(steps[..i + 1])| && Covers(Capture(start, steps)[i], q)
    requires Uncovered(later, q) && LastCover(earlier + Capture(start, steps) + later, q, at)
    ensures at.0 == |earlier| + i
  {
    var files, own := earlier + Capture(start, steps) + later, Capture(start, steps);
    assert files[|earlier| + i] == own[i];
    forall j | |earlier| + i < j < |files| ensures !Covers(files[j], q) {
      if j < |earlier| + |own| {
        assert files[j] == own[j - |earlier|];
        NotCoveredLater(start, steps, i, j - |earlier|, q);
      } else {
        assert files[j] in later;
      }
    }
  }

  lemma ReadFromStep<A>(start: nat, steps: seq<Step<A>>, q: nat, i: nat)
    requires i < |steps| && start + |Accepted(steps[..i])| <= q < start + |Accepted(steps[..i + 1])|
    ensures q - start < |Accepted(steps)|
    ensures
      var off := q - start - |Accepted(steps[..i])|;
      off < |steps[i].toks| && steps[i].toks[off] == Accepted(steps)[q - start]
  {
    AcceptedUpTo(steps, i + 1);
    assert steps[..i + 1][..i] == steps[..i];
  }

  /** A request alone in its stream: reading the index back gives the accepted history. An
      accepted position is never covered by a later file, so the last file to cover it is the
      one that accepted it. */
  lemma IndexReadsAccepted<A>(start: nat, steps: seq<Step<A>>, idx: Index, q: nat)
    requires IsIndex(Capture(start, steps), idx) && start <= q < start + |Accepted(steps)|
    ensures q in idx && LastCover(Capture(start, steps), q, idx[q])
    ensures Read(Capture(start, steps), idx, q) == Accepted(steps)[q - start]
  {
    var i := AcceptedFrom(start, steps, q);
    assert [] + Capture(start, steps) + [] == Capture(start, steps);
    MergedReadIff([], start, steps, [], idx, q);
  }

  /** An indexed position is not before the cached prefix's end, and fewer than `k` past the
      accepted history: that is how far a rejected tail can reach. */
  lemma IndexedRange<A>(start: nat, steps: seq<Step<A>>, k: nat, idx: Index, q: nat)
    requires LegalSteps(steps, k) && IsIndex(Capture(start, steps), idx) && q in idx
    ensures start <= q < start + |Accepted(steps)| + k
  {
    var i := idx[q].0;
    assert LastCover(Capture(start, steps), q, idx[q]);
    CaptureAt(start, steps, i);
    assert steps[..i + 1][..i] == steps[..i];
    AcceptedUpTo(steps, i + 1);
  }

  /** No hole in the window, the anchor or its k labels. */
  predicate NoHole(idx: Index, lo: nat, a: nat, k: nat) {
    forall q | lo <= q <= a + k :: q in idx
  }

  /** Where the files of some steps end: they cover every position from the cached prefix on. */
  function Reach<A>(start: nat, steps: seq<Step<A>>): (end: nat)
    ensures end >= start
  {
    if steps == [] then start
    else
      var before := steps[..|steps| - 1];
      Max(Reach(start, before), start + |Accepted(before)| + |steps[|steps| - 1].toks|)
  }

  lemma {:induction false} ReachPastAccepted<A>(start: nat, steps: seq<Step<A>>)
    ensures start + |Accepted(steps)| <= Reach(start, steps)
  {
    if steps != [] {
      ReachPastAccepted(start, steps[..|steps| - 1]);
    }
  }

  lemma {:induction false} CoveredIff<A>(start: nat, steps: seq<Step<A>>, q: nat)
    ensures (exists j :: 0 <= j < |steps| && Covers(Capture(start, steps)[j], q)) <==> start <= q < Reach(start, steps)
  {
    if steps != [] {
      var n := |steps| - 1;
      var before, last := steps[..n], File(start + |Accepted(steps[..n])|, steps[n].toks);
      CoveredIff(start, before, q);
      ReachPastAccepted(start, before);
      assert Capture(start, steps) == Capture(start, before) + [last];
      if j :| 0 <= j < |before| && Covers(Capture(start, before)[j], q) {
        assert Covers(Capture(start, steps)[j], q);
      }
      if Covers(last, q) {
        assert Covers(Capture(start, steps)[n], q);
      }
      if j :| 0 <= j < |steps| && Covers(Capture(start, steps)[j], q) && j < n {
        assert Covers(Capture(start, before)[j], q);
      }
    }
  }

  lemma IndexedIffCovered<A>(files: seq<File<A>>, idx: Index, q: nat)
    requires IsIndex(files, idx)
    ensures q in idx <==> exists j :: 0 <= j < |files| && Covers(files[j], q)
  {
    if q in idx {
      assert LastCover(files, q, idx[q]);
    }
  }

  /** The unverified frontier: after more than one step, a last step of under 64 tokens counts for
      nothing. What is indexed is what the other steps cover, and otherwise what all of them
      cover. */
  lemma FrontierDropped<A>(start: nat, steps: seq<Step<A>>, idx: Index, q: nat)
    requires IsIndex(Kept(Capture(start, steps)), idx)
    ensures
      var counted := if |steps| > 1 && |steps[|steps| - 1].toks| < 64 then steps[..|steps| - 1] else steps;
      q in idx <==> start <= q < Reach(start, counted)
  {
    var n := |steps|;
    var counted := if n > 1 && |steps[n - 1].toks| < 64 then steps[..n - 1] else steps;
    if n > 0 {
      CaptureAt(start, steps, n - 1);
      assert Capture(start, steps)[..n - 1] == Capture(start, steps[..n - 1]);
    }
    assert Kept(Capture(start, steps)) == Capture(start, counted);
    IndexedIffCovered(Capture(start, counted), idx, q);
    CoveredIff(start, counted, q);
  }

  /** Exactly which anchors are accepted, for a request alone in its stream: those whose window is
      past the cached prefix and whose labels end before what the counted steps cover. */
  lemma AnchorAcceptedIff<A>(start: nat, steps: seq<Step<A>>, k: nat, idx: Index, a: nat, w: nat)
    requires IsIndex(Kept(Capture(start, steps)), idx)
    ensures
      var counted := if |steps| > 1 && |steps[|steps| - 1].toks| < 64 then steps[..|steps| - 1] else steps;
      NoHole(idx, Max(0, a - w), a, k) <==> start <= Max(0, a - w) && a + k < Reach(start, counted)
  {
    var lo: nat := Max(0, a - w);
    forall q: nat | lo <= q <= a + k
      ensures
        var counted := if |steps| > 1 && |steps[|steps| - 1].toks| < 64 then steps[..|steps| - 1] else steps;
        q in idx <==> start <= q < Reach(start, counted)
    {
      FrontierDropped(start, steps, idx, q);
    }
    assert NoHole(idx, lo, a, k) ==> lo in idx && a + k in idx;
  }

  /** One such stream: a prefill of 600 tokens, then a decode step of 6. With 5 labels the anchor
      at 600 is refused. */
  lemma FrontierExample<A>(prefill: Step<A>, decode: Step<A>, idx: Index, w: nat)
    requires |prefill.toks| == 600 && |decode.toks| == 6 && prefill.rejected == 0 && w > 0
    requires IsIndex(Kept(Capture(0, [prefill, decode])), idx)
    ensures !NoHole(idx, Max(0, 600 - w), 600, 5) && (w <= 594 ==> NoHole(idx, Max(0, 594 - w), 594, 5))
  {
    var steps := [prefill, decode];
    assert steps[..1] == [prefill] && [prefill][..0] == [];
    assert Reach(0, [prefill]) == 600;
    AnchorAcceptedIff(0, steps, 5, idx, 600, w);
    AnchorAcceptedIff(0, steps, 5, idx, 594, w);
  }

  /** Any anchor the loader can sample has its window out of the cached prefix, the window and
      itself inside the verified history, and what it reads there is what the request really
      accepted, whether or not the last file was dropped. */
  lemma SampledWindowVerified<A>(start: nat, steps: seq<Step<A>>, k: nat, idx: Index, a: nat, w: nat)
    requires LegalSteps(steps, k) && IsIndex(Kept(Capture(start, steps)), idx) && NoHole(idx, Max(0, a - w), a, k)
    ensures start <= Max(0, a - w) && a < start + |Accepted(steps)|
    ensures forall q | Max(0, a - w) <= q <= a ::
              && LastCover(Kept(Capture(start, steps)), q, idx[q])
              && Read(Kept(Capture(start, steps)), idx, q) == Accepted(steps)[q - start]
  {
    var n := if Kept(Capture(start, steps)) == Capture(start, steps) then |steps| else |steps| - 1;
    var kept := steps[..n];
    assert n == |steps| ==> kept == steps;
    assert Kept(Capture(start, steps)) == Capture(start, kept);
    assert a + k in idx && Max(0, a - w) in idx;
    IndexedRange(start, kept, k, idx, a + k);
    IndexedRange(start, kept, k, idx, Max(0, a - w));
    AcceptedUpTo(steps, n);
    forall q | Max(0, a - w) <= q <= a
      ensures LastCover(Capture(start, kept), q, idx[q])
      ensures Read(Capture(start, kept), idx, q) == Accepted(steps)[q - start]
    {
      IndexReadsAccepted(start, kept, idx, q);
    }
  }

  /** In a stream shared with other requests: a sample at anchor `a` reads this request's accepted
      tokens only if and only if its window lies between the end of the cached prefix and the end
      of the accepted history, clear of every later request's files. The loader checks neither. */
  lemma MergedWindowIff<A>(earlier: seq<File<A>>, start: nat, steps: seq<Step<A>>, later: seq<File<A>>,
                           idx: Index, a: nat, w: nat, k: nat)
    requires IsIndex(earlier + Capture(start, steps) + later, idx) && NoHole(idx, Max(0, a - w), a, k)
    ensures
      (forall q: nat | Max(0, a - w) <= q <= a :: q in idx && ReadsAccepted(earlier, start, steps, idx, q)) <==>
      && start <= Max(0, a - w) && a < start + |Accepted(steps)|
      && forall q: nat | Max(0, a - w) <= q <= a :: Uncovered(later, q)
  {
    var lo: nat := Max(0, a - w);
    forall q: nat | lo <= q <= a
      ensures q in idx
      ensures ReadsAccepted(earlier, start, steps, idx, q) <==>
              start <= q < start + |Accepted(steps)| && Uncovered(later, q)
    {
      MergedReadIff(earlier, start, steps, later, idx, q);
    }
    assert lo in idx && a in idx;
    if forall q: nat | lo <= q <= a :: q in idx && ReadsAccepted(earlier, start, steps, idx, q) {
      assert ReadsAccepted(earlier, start, steps, idx, lo) && ReadsAccepted(earlier, start, steps, idx, a);
      forall q: nat | lo <= q <= a ensures Uncovered(later, q) {
        assert ReadsAccepted(earlier, start, steps, idx, q);
      }
    }
  }

  /** The failing input: a request that starts at position 0, then one with a cached prefix no
      longer than the first one's file. Both files land in one stream and are kept; an anchor
      just past the cached prefix is not refused, and below it the window holds the first
      request's tokens. */
  lemma TwoRequestsMixed<A>(one: Step<A>, start: nat, two: Step<A>, k: nat, idx: Index, a: nat, w: nat)
    requires LegalSteps([one], k) && LegalSteps([two], k) && 0 < start <= |one.toks| && |two.toks| >= 64
    requires start <= a < start + w && a + k < start + |two.toks|
    requires IsIndex([File(0, one.toks), File(start, two.toks)], idx)
    ensures
      var files := [File(0, one.toks), File(start, two.toks)];
      && Captures([Request(0, [one]), Request(start, [two])]) == files
      && Stitched(files) == [files] && Kept(files) == files
      && NoHole(idx, Max(0, a - w), a, k) && Max(0, a - w) < start
      && forall q | Max(0, a - w) <= q < start :: LastCover(files, q, idx[q]) && Read(files, idx, q) == one.toks[q]
  {
    var files := [File(0, one.toks), File(start, two.toks)];
    TwoRequestsOneStream(one, start, two);
    forall q: nat | q <= a + k ensures q in idx {
      assert Covers(files[0], q) || Covers(files[1], q);
    }
    forall q: nat | q < start ensures LastCover(files, q, idx[q]) && Read(files, idx, q) == one.toks[q] {
      assert q in idx;
      assert !Covers(files[1], q);
    }
  }

  lemma TwoRequestsOneStream<A>(one: Step<A>, start: nat, two: Step<A>)
    requires one.toks != [] && two.toks != [] && start > 0
    ensures
      var files := [File(0, one.toks), File(start, two.toks)];
      Captures([Request(0, [one]), Request(start, [two])]) == files && Stitched(files) == [files]
  {
    var first, second := Request(0, [one]), Request(start, [two]);
    CaptureOne(0, one);
    CaptureOne(start, two);
    CapturesTwo(first, second);
    StitchTwo(File(0, one.toks), File(start, two.toks));
  }

  lemma CaptureOne<A>(start: nat, step: Step<A>)
    ensures Capture(start, [step]) == [File(start, step.toks)]
  {
    assert [step][..0] == [];
  }

  lemma CapturesTwo<A>(one: Request<A>, two: Request<A>)
    ensures Captures([one, two]) == Capture(one.start, one.steps) + Capture(two.start, two.steps)
  {
    assert [one, two][..1] == [one] && [one][..0] == [];
    assert Captures([one]) == Capture(one.start, one.steps);
  }

  lemma StitchTwo<A>(f: File<A>, g: File<A>)
    requires f.toks != [] && g.toks != [] && g.first != 0
    ensures Stitched([f, g]) == [[f, g]]
  {
    assert [f, g][..1] == [f] && [f][..0] == [];
    assert Stitched([f]) == [[f]];
    assert [f] + [g] == [f, g] && [[f]][0 := [f, g]] == [[f, g]];
  }

  // ---- reading windows through the file cache ----

  /** A training sample at anchor `a`: left padding, then the window's positions in order,
      each with the hidden state the index reads there. */
  ghost predicate IsSample<A>(files: seq<File<A>>, idx: Index, a: nat, aux: seq<A>, pos: seq<int>, pad: seq<bool>) {
    var w := |aux|;
    var lo := Max(0, a - w);
    var padding := w - (a - lo);
    && |pos| == |pad| == w
    && (forall i | 0 <= i < w :: pad[i] <==> i < padding)
    && (forall i | padding <= i < w :: ReadsAt(files, idx, lo + i - padding, pos[i], aux[i]))
  }

  ghost predicate ReadsAt<A>(files: seq<File<A>>, idx: Index, q: nat, pos: int, aux: A) {
    && q in idx && LastCover(files, q, idx[q])
    && pos == q && aux == Read(files, idx, q).aux
  }

  const CACHE_CAP := 12

  lemma WithoutHead(order: seq<nat>)
    requires order != [] && forall i, j | 0 <= i < j < |order| :: order[i] != order[j]
    ensures forall g :: g in order[1..] <==> g in order && g != order[0]
  {
    assert order == [order[0]] + order[1..];
  }

  /** Left padding up to width `w`. */
  function Padded<T>(xs: seq<T>, w: nat, fill: T): (r: seq<T>)
    ensures |r| == Max(w, |xs|)
  {
    seq(Max(0, w - |xs|), _ => fill) + xs
  }

  lemma PaddedIsSample<A>(files: seq<File<A>>, idx: Index, a: nat, w: nat, toks: seq<Tok<A>>, zero: A)
    requires 0 < w && IsIndex(files, idx)
    requires
      var lo := Max(0, a - w);
      |toks| == a - lo && forall q | lo <= q < a ::
        q in idx && LastCover(files, q, idx[q]) && toks[q - lo] == Read(files, idx, q)
    ensures
      var lo := Max(0, a - w);
      var aux := Padded(seq(|toks|, i requires 0 <= i < |toks| => toks[i].aux), w, zero);
      var pos := Padded(seq(a - lo, i => lo + i), w, 0);
      var pad := seq(w, i => i < w - (a - lo));
      && IsSample(files, idx, a, aux, pos, pad)
      && forall i | 0 <= i < w && pad[i] :: pos[i] == 0 && aux[i] == zero
  {
    var lo := Max(0, a - w);
    var padding := w - (a - lo);
    var aux := Padded(seq(|toks|, i requires 0 <= i < |toks| => toks[i].aux), w, zero);
    var pos := Padded(seq(a - lo, i => lo + i), w, 0);
    forall i | padding <= i < w ensures ReadsAt(files, idx, lo + i - padding, pos[i], aux[i]) {
      assert toks[lo + i - padding - lo] == Read(files, idx, lo + i - padding);
    }
  }

  class FileCache<A> {
    /** What is on disk, by file number. */
    const disk: seq<File<A>>
    var cache: map<nat, seq<Tok<A>>>
    var order: seq<nat>

    /** The cache holds exactly the files in `order`, each once, as they are on disk. */
    ghost predicate Valid()
      reads this
    {
      && |order| <= CACHE_CAP
      && (forall f :: f in cache <==> f in order)
      && (forall f | f in cache :: f < |disk| && cache[f] == disk[f].toks)
      && (forall i, j | 0 <= i < j < |order| :: order[i] != order[j])
    }

    constructor (disk: seq<File<A>>)
      ensures Valid() && this.disk == disk && order == []
    {
      this.disk, cache, order := disk, map[], [];
    }

    /** A file's tokens; a miss loads it and, past the capacity, evicts the oldest file. */
    method Load(f: nat) returns (toks: seq<Tok<A>>)
      requires Valid() && f < |disk|
      modifies this
      ensures Valid() && toks == disk[f].toks
      ensures old(f in cache) ==> order == old(order)
      ensures old(f !in cache) ==>
                order == old(if |order| < 12 then order else order[1..]) + [f]
    {
      if f !in cache {
        cache := cache[f := disk[f].toks];
        order := order + [f];
        assert forall g :: g in cache <==> g in order;
        if |order| > CACHE_CAP {
          WithoutHead(order);
          cache := cache - {order[0]};
          order := order[1..];
        }
      }
      toks := cache[f];
    }

    /** Positions [lo, hi) as slices grouped by file run; None for an empty range, for which the
        list of slices has no first element to return. */
    method WindowAux(idx: Index, lo: nat, hi: nat) returns (rows: Option<seq<Tok<A>>>)
      requires Valid()
      requires forall q | lo <= q < hi :: q in idx && idx[q].0 < |disk| && idx[q].1 < |disk[idx[q].0].toks|
      modifies this
      ensures Valid() && (rows == None <==> hi <= lo)
      ensures rows.Some? ==> |rows.value| == hi - lo
      ensures rows.Some? ==> forall q | lo <= q < hi :: rows.value[q - lo] == Read(disk, idx, q)
    {
      if hi <= lo {
        return None;
      }
      var out: seq<Tok<A>> := [];
      var run: Option<nat> := None;
      var runS, runE := 0, 0;
      for q := lo to hi
        invariant Valid()
        invariant if run == None then q == lo && out == [] else
                    run.value < |disk| && runS < runE <= |disk[run.value].toks| && |out| + runE - runS == q - lo
        invariant forall p | lo <= p < lo + |out| :: out[p - lo] == Read(disk, idx, p)
        invariant run.Some? ==> forall p | lo + |out| <= p < q ::
                    Read(disk, idx, p) == disk[run.value].toks[runS + p - lo - |out|]
      {
        var (f, off) := idx[q];
        if run == Some(f) && off == runE {
          runE := runE + 1;
        } else {
          if run.Some? {
            var toks := Load(run.value);
            out := out + toks[runS..runE];
          }
          run, runS, runE := Some(f), off, off + 1;
        }
      }
      var toks := Load(run.value);
      out := out + toks[runS..runE];
      rows := Some(out);
    }

    /** One training sample at anchor `a`: a hole gives None; otherwise `w` left-padded
        window rows with positions and pad flags, the anchor id and the `k` label ids. */
    method SampleAnchor(idx: Index, a: nat, w: nat, k: nat, zero: A)
        returns (sample: Option<(seq<A>, seq<int>, seq<bool>, seq<int>)>)
      requires Valid() && 0 < a && 0 < w && IsIndex(disk, idx)
      modifies this
      ensures Valid() && (sample == None <==> !NoHole(idx, Max(0, a - w), a, k))
      ensures sample.Some? ==>
        var (aux, pos, pad, ids) := sample.value;
        && |aux| == w && IsSample(disk, idx, a, aux, pos, pad)
        && (forall i | 0 <= i < w && pad[i] :: pos[i] == 0 && aux[i] == zero)
        && |ids| == k + 1
        && (forall q | a <= q <= a + k :: LastCover(disk, q, idx[q]) && ids[q - a] == Read(disk, idx, q).id)
    {
      var lo := Max(0, a - w);
      for q := lo to a + k + 1
        invariant forall p | lo <= p < q :: p in idx
      {
        if q !in idx {
          return None;
        }
      }
      var win := WindowAux(idx, lo, a);
      var toks := win.value;
      var aux := Padded(seq(|toks|, i requires 0 <= i < |toks| => toks[i].aux), w, zero);
      var pos := Padded(seq(a - lo, i => lo + i), w, 0);
      var pad := seq(w, i => i < w - (a - lo));
      PaddedIsSample(disk, idx, a, w, toks, zero);
      var ids := ReadIds(idx, a, k);
      sample := Some((aux, pos, pad, ids));
    }

    /** The token ids at positions a .. a + k. */
    method ReadIds(idx: Index, a: nat, k: nat) returns (ids: seq<int>)
      requires Valid() && IsIndex(disk, idx) && forall q | a <= q <= a + k :: q in idx
      modifies this
      ensures Valid() && |ids| == k + 1
      ensures forall q | a <= q <= a + k :: LastCover(disk, q, idx[q]) && ids[q - a] == Read(disk, idx, q).id
    {
      ids := [];
      for q := a to a + k + 1
        invariant Valid() && |ids| == q - a
        invariant forall p | a <= p < q :: LastCover(disk, p, idx[p]) && ids[p - a] == Read(disk, idx, p).id
      {
        var (f, off) := idx[q];
        var data := Load(f);
        ids := ids + [data[off].id];
      }
    }
  }

  /** The unpadded (position, hidden state) pairs of a sample. */
  function Pairs<A>(aux: seq<A>, pos: seq<int>, pad: seq<bool>): seq<(int, A)>
    requires |aux| == |pos| == |pad|
  {
    if aux == [] then []
    else (if pad[0] then [] else [(pos[0], aux[0])]) + Pairs(aux[1..], pos[1..], pad[1..])
  }

  lemma {:induction false} PairsAfterPadding<A>(aux: seq<A>, pos: seq<int>, pad: seq<bool>, padding: nat)
    requires |aux| == |pos| == |pad| && padding <= |aux|
    requires forall i | 0 <= i < |aux| :: pad[i] <==> i < padding
    ensures |Pairs(aux, pos, pad)| == |aux| - padding
    ensures forall i | 0 <= i < |aux| - padding :: Pairs(aux, pos, pad)[i] == (pos[padding + i], aux[padding + i])
  {
    if aux != [] {
      PairsAfterPadding(aux[1..], pos[1..], pad[1..], Max(0, padding - 1));
    }
  }

  /** Accepted tokens as the ring is served them, from a position on: (position, hidden state)
      pairs. */
  function ServedPairs<A>(start: nat, hist: seq<Tok<A>>): (t: seq<(int, A)>)
    ensures |t| == |hist|
  {
    seq(|hist|, p requires 0 <= p < |hist| => (start + p, hist[p].aux))
  }

  /** A sample whose window is read from the tokens a request accepted is the window of the
      request's first `a` tokens, cached prefix included. */
  lemma ReadsMakeWindow<A>(files: seq<File<A>>, start: nat, toks: seq<Tok<A>>, idx: Index, a: nat,
                           hist: seq<(int, A)>, aux: seq<A>, pos: seq<int>, pad: seq<bool>)
    requires IsIndex(files, idx) && IsSample(files, idx, a, aux, pos, pad)
    requires start <= Max(0, a - |aux|) && start <= |hist| == a <= start + |toks|
    requires hist[start..] == ServedPairs(start, toks[..a - start])
    requires forall q | Max(0, a - |aux|) <= q < a ::
               q in idx && LastCover(files, q, idx[q]) && Read(files, idx, q) == toks[q - start]
    ensures Pairs(aux, pos, pad) == Window(hist, |aux|)
  {
    var lo := Max(0, a - |aux|);
    var padding := |aux| - (a - lo);
    PairsAfterPadding(aux, pos, pad, padding);
    forall i | padding <= i < |aux| ensures (pos[i], aux[i]) == hist[lo + i - padding] {
      SampleEntry(files, start, toks, idx, a, hist, lo + i - padding, pos[i], aux[i]);
    }
    EqualByIndex(Pairs(aux, pos, pad), hist, lo, pos, aux, padding);
  }

  lemma SampleEntry<A>(files: seq<File<A>>, start: nat, toks: seq<Tok<A>>, idx: Index, a: nat, hist: seq<(int, A)>,
                       q: nat, pos: int, aux: A)
    requires start <= q < |hist| == a <= start + |toks| && hist[start..] == ServedPairs(start, toks[..a - start])
    requires ReadsAt(files, idx, q, pos, aux) && Read(files, idx, q) == toks[q - start]
    ensures (pos, aux) == hist[q]
  {
    ServedAt(start, toks, a, hist, q);
  }

  /** A request alone in its stream: a sample at anchor `a` is the window of its first `a`
      tokens. None of the cached ones is in it. */
  lemma SampleIsWindow<A>(start: nat, steps: seq<Step<A>>, k: nat, idx: Index, a: nat, hist: seq<(int, A)>,
                          aux: seq<A>, pos: seq<int>, pad: seq<bool>)
    requires LegalSteps(steps, k) && IsIndex(Kept(Capture(start, steps)), idx) && NoHole(idx, Max(0, a - |aux|), a, k)
    requires IsSample(Kept(Capture(start, steps)), idx, a, aux, pos, pad)
    requires start <= |hist| == a <= start + |Accepted(steps)|
    requires hist[start..] == ServedPairs(start, Accepted(steps)[..a - start])
    ensures start <= Max(0, a - |aux|) && a < start + |Accepted(steps)|
    ensures Pairs(aux, pos, pad) == Window(hist, |aux|)
  {
    SampledWindowVerified(start, steps, k, idx, a, |aux|);
    ReadsMakeWindow(Kept(Capture(start, steps)), start, Accepted(steps), idx, a, hist, aux, pos, pad);
  }

  /** A request in a stream shared with others: the same for a window clear of the cached prefix
      and of every later request's files. */
  lemma SharedSampleIsWindow<A>(earlier: seq<File<A>>, start: nat, steps: seq<Step<A>>, later: seq<File<A>>,
                                idx: Index, a: nat, hist: seq<(int, A)>, aux: seq<A>, pos: seq<int>, pad: seq<bool>)
    requires IsIndex(earlier + Capture(start, steps) + later, idx)
    requires IsSample(earlier + Capture(start, steps) + later, idx, a, aux, pos, pad)
    requires start <= |hist| == a <= start + |Accepted(steps)|
    requires hist[start..] == ServedPairs(start, Accepted(steps)[..a - start])
    requires start <= Max(0, a - |aux|) && forall q: nat | Max(0, a - |aux|) <= q < a :: Uncovered(later, q)
    ensures Pairs(aux, pos, pad) == Window(hist, |aux|)
  {
    var files := earlier + Capture(start, steps) + later;
    forall q | Max(0, a - |aux|) <= q < a
      ensures q in idx && LastCover(files, q, idx[q]) && Read(files, idx, q) == Accepted(steps)[q - start]
    {
      var i := AcceptedFrom(start, steps, q);
      assert files[|earlier| + i] == Capture(start, steps)[i];
      MergedReadIff(earlier, start, steps, later, idx, q);
    }
    ReadsMakeWindow(files, start, Accepted(steps), idx, a, hist, aux, pos, pad);
  }

  lemma ServedAt<A>(start: nat, toks: seq<Tok<A>>, a: nat, hist: seq<(int, A)>, q: nat)
    requires start <= q < |hist| == a <= start + |toks| && hist[start..] == ServedPairs(start, toks[..a - start])
    ensures hist[q] == (q, toks[q - start].aux)
  {
    assert hist[q] == hist[start..][q - start];
  }

  lemma EqualByIndex<A>(pairs: seq<(int, A)>, hist: seq<(int, A)>, lo: nat, pos: seq<int>, aux: seq<A>, padding: nat)
    requires |pos| == |aux| && padding <= |aux| && |hist| == lo + |aux| - padding && |pairs| == |aux| - padding
    requires forall i | 0 <= i < |pairs| :: pairs[i] == (pos[padding + i], aux[padding + i])
    requires forall i | padding <= i < |aux| :: (pos[i], aux[i]) == hist[lo + i - padding]
    ensures pairs == hist[lo..]
  {
    forall i | 0 <= i < |pairs| ensures pairs[i] == hist[lo + i] {
      assert (pos[padding + i], aux[padding + i]) == hist[lo + (padding + i) - padding];
    }
  }

  /** For any anchor, one inside a step included: a ring row fed with the accepted tokens below
      it, from any earlier contents, after any cached prefix and in any chunks, exposes through
      a mask of that depth exactly the (position, hidden state) pairs of the training sample.
      `TrainingServing` compares the sample with whole serving runs. */
  lemma TrainingEqualsServing<A>(start: nat, steps: seq<Step<A>>, k: nat, idx: Index, a: nat, hist: seq<(int, A)>,
                                 row: seq<(int, A)>, chunks: seq<seq<(int, A)>>, aux: seq<A>, pos: seq<int>,
                                 pad: seq<bool>)
    requires LegalSteps(steps, k) && IsIndex(Kept(Capture(start, steps)), idx) && NoHole(idx, Max(0, a - |aux|), a, k)
    requires 0 < |row| == |aux| && IsSample(Kept(Capture(start, steps)), idx, a, aux, pos, pad)
    requires start <= |hist| == a <= start + |Accepted(steps)|
    requires Flatten(chunks) == hist[start..] == ServedPairs(start, Accepted(steps)[..a - start])
    ensures multiset(Visible(AfterChunks(row, start, chunks), PrefixMask(Min(a, |row|), |row|))) ==
            multiset(Pairs(aux, pos, pad))
  {
    SampleIsWindow(start, steps, k, idx, a, hist, aux, pos, pad);
    HitWithinTrimExact(row, hist, start, chunks);
  }
}
