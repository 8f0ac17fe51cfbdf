/** The draft ring of one attention layer, one row at a time: which position a slot
    holds after a block has been ingested, what the visibility mask exposes, and how
    deep a prefix-cache hit may be before stale slots become visible. */
module DraftRing {
  import opened ModArith
  import opened Prelude

  /** The last position before `end` that lands in slot `s` of a ring of width `w`. */
  function LastAt(end: nat, w: nat, s: nat): (p: int)
    requires s < w
    ensures end - w <= p < end && p % w == s
  {
    LastAtMod(end, w, s);
    end - 1 - (end - 1 - s) % w
  }

  lemma LastAtMod(end: nat, w: nat, s: nat)
    requires s < w
    ensures (end - 1 - (end - 1 - s) % w) % w == s
  {
    var d := end - 1 - s;
    assert end - 1 - d % w == s + (d / w) * w;
    AddMultiple(s, w, d / w);
    DivModIs(s, w, 0, s);
  }

  /** A row (trash slot left out) after positions [first, first + |block|) were ingested. */
  function AfterIngest<T>(row: seq<T>, first: nat, block: seq<T>): (r: seq<T>)
    ensures |r| == |row|
  {
    seq(|row|, s requires 0 <= s < |row| =>
      var p := LastAt(first + |block|, |row|, s);
      if p < first then row[s] else block[p - first])
  }

  function Flatten<T>(chunks: seq<seq<T>>): seq<T> {
    if chunks == [] then [] else chunks[0] + Flatten(chunks[1..])
  }

  /** A row after several consecutive blocks, in order. */
  function AfterChunks<T>(row: seq<T>, first: nat, chunks: seq<seq<T>>): (r: seq<T>)
    ensures |r| == |row|
    decreases |chunks|
  {
    if chunks == [] then row
    else AfterChunks(AfterIngest(row, first, chunks[0]), first + |chunks[0]|, chunks[1..])
  }

  lemma AfterIngestCompose<T>(row: seq<T>, first: nat, a: seq<T>, b: seq<T>)
    ensures AfterIngest(AfterIngest(row, first, a), first + |a|, b) == AfterIngest(row, first, a + b)
  {
    var two, one := AfterIngest(AfterIngest(row, first, a), first + |a|, b), AfterIngest(row, first, a + b);
    forall s | 0 <= s < |row| ensures two[s] == one[s] {
      var p, q := LastAt(first + |a| + |b|, |row|, s), LastAt(first + |a|, |row|, s);
      if p < first + |a| {
        ModUnique(p, q, |row|);
      }
    }
  }

  /** How the blocks are cut does not matter: any chunking equals one ingest of the whole. */
  lemma {:induction false} ChunkingIrrelevant<T>(row: seq<T>, first: nat, chunks: seq<seq<T>>)
    ensures AfterChunks(row, first, chunks) == AfterIngest(row, first, Flatten(chunks))
    decreases |chunks|
  {
    if chunks == [] {
      assert AfterIngest(row, first, []) == row;
    } else {
      ChunkingIrrelevant(AfterIngest(row, first, chunks[0]), first + |chunks[0]|, chunks[1..]);
      AfterIngestCompose(row, first, chunks[0], Flatten(chunks[1..]));
    }
  }

  /** Every slot whose latest position is at or after `start` holds that position's token. */
  ghost predicate Holds<T>(row: seq<T>, hist: seq<T>, start: nat) {
    forall s | 0 <= s < |row| ::
      var p := LastAt(|hist|, |row|, s); start <= p ==> row[s] == hist[p]
  }

  lemma IngestKeepsHolds<T>(row: seq<T>, hist: seq<T>, start: nat, block: seq<T>)
    requires start <= |hist| && Holds(row, hist, start)
    ensures Holds(AfterIngest(row, |hist|, block), hist + block, start)
  {
    var r := AfterIngest(row, |hist|, block);
    forall s | 0 <= s < |row|
      ensures var p := LastAt(|hist + block|, |row|, s); start <= p ==> r[s] == (hist + block)[p]
    {
      var p, q := LastAt(|hist + block|, |row|, s), LastAt(|hist|, |row|, s);
      if p < |hist| {
        ModUnique(p, q, |row|);
      }
    }
  }

  /** The mask row that exposes the first `m` slots (true is visible). */
  function PrefixMask(m: int, w: nat): (r: seq<bool>)
    ensures |r| == w
  {
    seq(w, s => s < m)
  }

  /** What attention reads through a mask row: the visible slots' contents. */
  function Visible<T>(row: seq<T>, mask: seq<bool>): seq<T>
    requires |row| == |mask|
  {
    if row == [] then []
    else (if mask[0] then [row[0]] else []) + Visible(row[1..], mask[1..])
  }

  lemma {:induction false} VisiblePrefix<T>(row: seq<T>, m: int)
    requires 0 <= m <= |row|
    ensures Visible(row, PrefixMask(m, |row|)) == row[..m]
  {
    if row != [] {
      if m == 0 {
        assert PrefixMask(0, |row|)[1..] == PrefixMask(0, |row[1..]|);
        VisiblePrefix(row[1..], 0);
      } else {
        assert PrefixMask(m, |row|)[1..] == PrefixMask(m - 1, |row[1..]|);
        VisiblePrefix(row[1..], m - 1);
        assert [row[0]] + row[1..][..m - 1] == row[..m];
      }
    }
  }

  /** The last min(n, w) tokens of a history. */
  function Window<T>(hist: seq<T>, w: nat): (r: seq<T>)
    ensures |r| == Min(|hist|, w)
  {
    hist[|hist| - Min(|hist|, w)..]
  }

  /** Where the window's tokens lie: slot `s` holds window entry `s - n % w`, wrapped. */
  lemma WindowIndex(n: nat, w: nat, s: nat)
    requires s < w
    ensures n < w && s < n ==> LastAt(n, w, s) == s
    ensures w <= n ==> LastAt(n, w, s) == n - w + (if s < n % w then s + w - n % w else s - n % w)
  {
    var p := LastAt(n, w, s);
    if n < w {
      if s < n {
        DivModIs(s, w, 0, s);
        ModUnique(p, s, w);
      }
    } else {
      var m := n % w;
      var q := if s < m then n - m + s else n - m - w + s;
      var k := if s < m then n / w else n / w - 1;
      assert q == k * w + s;
      DivModIs(q, w, k, s);
      ModUnique(p, q, w);
    }
  }

  /** Where the newest `n % w` tokens start within the window once the ring has wrapped. */
  function Cut(n: nat, w: nat): (c: nat)
    requires 0 < w
    ensures c <= Min(n, w)
  {
    if n < w then 0 else w - n % w
  }

  /** A row that holds its history is a rotation of the window. */
  lemma RowIsRotation<T>(row: seq<T>, hist: seq<T>, start: nat)
    requires 0 < |row| && Holds(row, hist, start) && start <= Max(0, |hist| - |row|)
    ensures
      var win, cut := Window(hist, |row|), Cut(|hist|, |row|);
      row[..Min(|hist|, |row|)] == win[cut..] + win[..cut]
  {
    var w, n := |row|, |hist|;
    var win, m, cut := Window(hist, w), Min(n, w), Cut(n, w);
    forall s | 0 <= s < m ensures row[s] == (win[cut..] + win[..cut])[s] {
      WindowIndex(n, w, s);
      var p := LastAt(n, w, s);
      assert row[s] == hist[p];
    }
    assert row[..m] == win[cut..] + win[..cut];
  }

  /** What the mask exposes of a row that holds its history is each of the last min(n, w)
      tokens exactly once and nothing else. */
  lemma ExposesWindow<T>(row: seq<T>, hist: seq<T>, start: nat)
    requires 0 < |row| && Holds(row, hist, start) && start <= Max(0, |hist| - |row|)
    ensures Exact(row, hist)
  {
    var win, cut := Window(hist, |row|), Cut(|hist|, |row|);
    RowIsRotation(row, hist, start);
    assert win == win[..cut] + win[cut..];
    VisiblePrefix(row, Min(|hist|, |row|));
  }

  lemma {:induction false} VisibleWithin<T>(row: seq<T>, mask: seq<bool>)
    requires |row| == |mask|
    ensures multiset(Visible(row, mask)) <= multiset(row)
  {
    if row != [] {
      VisibleWithin(row[1..], mask[1..]);
      assert row == [row[0]] + row[1..];
    }
  }

  lemma {:induction false} VisibleHas<T>(row: seq<T>, mask: seq<bool>, s: nat)
    requires |row| == |mask| && s < |row| && mask[s]
    ensures row[s] in Visible(row, mask)
  {
    if s > 0 {
      VisibleHas(row[1..], mask[1..], s - 1);
    }
  }

  lemma {:induction false} NothingVisible<T>(row: seq<T>, mask: seq<bool>)
    requires |row| == |mask| && forall s | 0 <= s < |mask| :: !mask[s]
    ensures Visible(row, mask) == []
  {
    if row != [] {
      NothingVisible(row[1..], mask[1..]);
    }
  }

  lemma {:induction false} VisibleConcat<T>(row: seq<T>, mask: seq<bool>, m: nat)
    requires |row| == |mask| && m <= |row|
    ensures Visible(row, mask) == Visible(row[..m], mask[..m]) + Visible(row[m..], mask[m..])
  {
    if m > 0 {
      VisibleConcat(row[1..], mask[1..], m - 1);
      assert row[..m][1..] == row[1..][..m - 1] && mask[..m][1..] == mask[1..][..m - 1];
      assert row[1..][m - 1..] == row[m..] && mask[1..][m - 1..] == mask[m..];
    }
  }

  /** A mask that opens no slot from m on reads from the first m slots only. */
  lemma VisibleShallow<T>(row: seq<T>, mask: seq<bool>, m: nat)
    requires |row| == |mask| && m <= |row| && forall s | 0 <= s < |mask| && mask[s] :: s < m
    ensures multiset(Visible(row, mask)) <= multiset(row[..m])
  {
    VisibleConcat(row, mask, m);
    NothingVisible(row[m..], mask[m..]);
    VisibleWithin(row[..m], mask[..m]);
  }

  /** A mask opens only slots that hold accepted tokens. */
  ghost predicate Shallow(mask: seq<bool>, depth: nat) {
    forall s | 0 <= s < |mask| && mask[s] :: s < depth
  }

  /** A mask opens only slots whose latest position was ingested: among the n accepted ones and
      not before `start`, where the cached prefix ends. */
  ghost predicate Ingested(mask: seq<bool>, n: nat, start: nat) {
    forall s | 0 <= s < |mask| && mask[s] :: LastAt(n, |mask|, s) >= start
  }

  /** A row of `w` slots that holds a history from `start` on, and `stale` wherever it need not. */
  function StaleRow<T>(hist: seq<T>, w: nat, start: nat, stale: T): (row: seq<T>)
    ensures |row| == w
  {
    seq(w, s requires 0 <= s < w => var p := LastAt(|hist|, w, s); if p < start then stale else hist[p])
  }

  lemma {:induction false} VisibleSame<T>(a: seq<T>, b: seq<T>, mask: seq<bool>)
    requires |a| == |b| == |mask| && forall s | 0 <= s < |mask| && mask[s] :: a[s] == b[s]
    ensures Visible(a, mask) == Visible(b, mask)
  {
    if a != [] {
      VisibleSame(a[1..], b[1..], mask[1..]);
    }
  }

  /** Any mask, on a row that holds its history from the cached prefix on: nothing but window
      tokens is exposed, each at most once and whatever the row's stale contents, if and only if
      the mask opens ingested slots only. */
  lemma ExposureSafeIff<T(!new)>(mask: seq<bool>, hist: seq<T>, start: nat, stale: T)
    requires 0 < |mask| && start <= |hist| && stale !in hist
    ensures
      Ingested(mask, |hist|, start) <==>
      forall row: seq<T> | |row| == |mask| && Holds(row, hist, start) ::
        multiset(Visible(row, mask)) <= multiset(Window(hist, |mask|))
  {
    if Ingested(mask, |hist|, start) {
      forall row: seq<T> | |row| == |mask| && Holds(row, hist, start)
        ensures multiset(Visible(row, mask)) <= multiset(Window(hist, |mask|))
      {
        IngestedSafe(row, mask, hist, start);
      }
    } else {
      var row := StaleRow(hist, |mask|, start, stale);
      var s :| 0 <= s < |mask| && mask[s] && LastAt(|hist|, |mask|, s) < start;
      UningestedSlotStale(row, mask, hist, start, stale, s);
    }
  }

  lemma ShallowSafe<T>(row: seq<T>, mask: seq<bool>, hist: seq<T>)
    requires 0 < |row| == |mask| && Holds(row, hist, 0) && Shallow(mask, |hist|)
    ensures multiset(Visible(row, mask)) <= multiset(Window(hist, |mask|))
  {
    var m := Min(|hist|, |row|);
    ExposesWindow(row, hist, 0);
    VisiblePrefix(row, m);
    VisibleShallow(row, mask, m);
  }

  /** The visible slots are those of a row that holds the whole history. */
  lemma IngestedSafe<T>(row: seq<T>, mask: seq<bool>, hist: seq<T>, start: nat)
    requires 0 < |row| == |mask| && Holds(row, hist, start) && Ingested(mask, |hist|, start)
    ensures multiset(Visible(row, mask)) <= multiset(Window(hist, |mask|))
  {
    var filled := seq(|row|, s requires 0 <= s < |row| =>
      var p := LastAt(|hist|, |row|, s); if p < 0 then row[s] else hist[p]);
    VisibleSame(row, filled, mask);
    forall s | 0 <= s < |mask| && mask[s] ensures s < |hist| {
      SlotBelow(|hist|, |mask|, s);
    }
    ShallowSafe(filled, mask, hist);
  }

  lemma SlotBelow(n: nat, w: nat, s: nat)
    requires s < w
    ensures LastAt(n, w, s) >= 0 <==> s < n
  {
    var p := LastAt(n, w, s);
    if 0 <= p < s {
      DivModIs(p, w, 0, p);
    }
    if s < n {
      WindowIndex(n, w, s);
    }
  }

  lemma UningestedSlotStale<T>(row: seq<T>, mask: seq<bool>, hist: seq<T>, start: nat, stale: T, s: nat)
    requires start <= |hist| && row == StaleRow(hist, |mask|, start, stale) && stale !in hist
    requires s < |mask| && mask[s] && LastAt(|hist|, |mask|, s) < start
    ensures Holds(row, hist, start) && stale in Visible(row, mask)
    ensures !(multiset(Visible(row, mask)) <= multiset(Window(hist, |mask|)))
  {
    VisibleHas(row, mask, s);
    assert stale in multiset(Visible(row, mask)) && stale !in Window(hist, |mask|);
  }

  /** The least position among the latest positions of the first m slots. */
  function Oldest(n: nat, w: nat, m: nat): int
    requires 0 < w
  {
    if m <= n % w then n - n % w else n - w
  }

  /** A mask of depth m opens ingested slots only if and only if the cached prefix ends at or
      before the oldest position it opens. */
  lemma PrefixIngestedIff(n: nat, w: nat, m: nat, start: nat)
    requires 0 < w && m <= w
    ensures Ingested(PrefixMask(m, w), n, start) <==> m == 0 || start <= Oldest(n, w, m)
  {
    var mask := PrefixMask(m, w);
    forall s | 0 <= s < m ensures mask[s] && LastAt(n, w, s) >= Oldest(n, w, m) {
      PositionAt(n, w, s);
    }
    if m > 0 {
      var s := if m <= n % w then 0 else n % w;
      PositionAt(n, w, s);
      assert mask[s] && LastAt(n, w, s) == Oldest(n, w, m);
    }
  }

  lemma PositionAt(n: nat, w: nat, s: nat)
    requires s < w
    ensures LastAt(n, w, s) == if s < n % w then n - n % w + s else n - n % w - w + s
  {
    var p, q := LastAt(n, w, s), if s < n % w then n - n % w + s else n - n % w - w + s;
    var k := if s < n % w then n / w else n / w - 1;
    assert q == k * w + s;
    DivModIs(q, w, k, s);
    ModUnique(p, q, w);
  }

  /** At full depth that is: the prompt's cached prefix leaves the window alone. */
  lemma FullDepthIngestedIff(n: nat, w: nat, start: nat)
    requires 0 < w && start <= n
    ensures Ingested(PrefixMask(Min(n, w), w), n, start) <==> start <= Max(0, n - w)
  {
    PrefixIngestedIff(n, w, Min(n, w), start);
    if n < w {
      DivModIs(n, w, 0, n);
    }
  }

  /** What the mask of depth |hist| exposes is exactly the window. */
  ghost predicate Exact<T>(row: seq<T>, hist: seq<T>) {
    multiset(Visible(row, PrefixMask(Min(|hist|, |row|), |row|))) == multiset(Window(hist, |row|))
  }

  /** A request of `hist` tokens admitted on a row with arbitrary stale contents, `hit` of
      them taken from the prefix cache and so never ingested: its window is exact for every
      chunking and whatever the row held before, if and only if the hit leaves at least
      `w` tokens (or the whole prompt) to recompute. */
  lemma HitExactIff<T(!new)>(hist: seq<T>, hit: nat, w: nat, stale: T)
    requires 0 < w && hit <= |hist| && stale !in hist
    ensures hit <= Max(0, |hist| - w) <==>
            forall row: seq<T>, chunks | |row| == w && Flatten(chunks) == hist[hit..] ::
              Exact(AfterChunks(row, hit, chunks), hist)
  {
    if hit <= Max(0, |hist| - w) {
      forall row: seq<T>, chunks | |row| == w && Flatten(chunks) == hist[hit..]
        ensures Exact(AfterChunks(row, hit, chunks), hist)
      {
        HitWithinTrimExact(row, hist, hit, chunks);
      }
    } else {
      var row, chunks := seq(w, _ => stale), [hist[hit..]];
      assert chunks[1..] == [] && Flatten(chunks) == hist[hit..];
      DeepHitShowsStale(row, hist, hit, chunks, stale);
    }
  }

  lemma IngestFromHit<T>(row: seq<T>, hist: seq<T>, hit: nat)
    requires hit <= |hist|
    ensures Holds(AfterIngest(row, hit, hist[hit..]), hist, hit)
  {
    var prefix := hist[..hit];
    IngestKeepsHolds(row, prefix, hit, hist[hit..]);
    assert prefix + hist[hit..] == hist;
  }

  lemma HitWithinTrimExact<T>(row: seq<T>, hist: seq<T>, hit: nat, chunks: seq<seq<T>>)
    requires 0 < |row| && hit <= |hist| && hit <= Max(0, |hist| - |row|) && Flatten(chunks) == hist[hit..]
    ensures Exact(AfterChunks(row, hit, chunks), hist)
  {
    ChunkingIrrelevant(row, hit, chunks);
    IngestFromHit(row, hist, hit);
    ExposesWindow(AfterIngest(row, hit, hist[hit..]), hist, hit);
  }

  /** The slot of the last cached position is never ingested. */
  lemma CachedSlotKept<T>(row: seq<T>, hist: seq<T>, hit: nat) returns (s: nat)
    requires 0 < |row| && hit <= |hist| && hit > Max(0, |hist| - |row|)
    ensures s < Min(|hist|, |row|) && AfterIngest(row, hit, hist[hit..])[s] == row[s]
  {
    var w, n := |row|, |hist|;
    s := (hit - 1) % w;
    ModUnique(hit - 1, LastAt(n, w, s), w);
    if n < w {
      DivModIs(hit - 1, w, 0, hit - 1);
    }
  }

  lemma DeepHitShowsStale<T>(row: seq<T>, hist: seq<T>, hit: nat, chunks: seq<seq<T>>, stale: T)
    requires 0 < |row| && hit <= |hist| && hit > Max(0, |hist| - |row|) && Flatten(chunks) == hist[hit..]
    requires stale !in hist && forall s | 0 <= s < |row| :: row[s] == stale
    ensures stale in Visible(AfterChunks(row, hit, chunks), PrefixMask(Min(|hist|, |row|), |row|))
    ensures !Exact(AfterChunks(row, hit, chunks), hist)
  {
    var m := Min(|hist|, |row|);
    ChunkingIrrelevant(row, hit, chunks);
    var r := AfterIngest(row, hit, hist[hit..]);
    var s := CachedSlotKept(row, hist, hit);
    VisibleHas(r, PrefixMask(m, |row|), s);
    assert stale in multiset(Visible(r, PrefixMask(m, |row|)));
    assert stale !in Window(hist, |row|);
  }

  /** The longest hit the cache manager may return for a prompt of `tokens` tokens. */
  function MaxHitLength(tokens: nat, trim: nat): (h: nat)
    requires 0 < tokens
  {
    if trim > 0 then Max(0, tokens - 1 - trim) else tokens - 1
  }

  /** It is exactly the longest that leaves the trim and one more token to run, and nothing when
      the prompt is too short for that. */
  lemma MaxHitIsLongest(tokens: nat, trim: nat, h: nat)
    requires 0 < tokens
    ensures h <= MaxHitLength(tokens, trim) <==> h == 0 || h + trim < tokens
  {
  }

  /** Even the longest hit this trim lets through leaves the window to be recomputed. */
  ghost predicate TrimSuffices(trim: nat, w: nat) {
    forall tokens: nat | 0 < tokens :: MaxHitLength(tokens, trim) <= Max(0, tokens - w)
  }

  /** A trim is deep enough for every prompt length exactly when it is at least w - 1; the
      default trim, w, is. */
  lemma TrimSufficesIff(trim: nat, w: nat)
    requires 0 < w
    ensures TrimSuffices(trim, w) <==> trim >= w - 1
  {
    if trim < w - 1 {
      assert !(MaxHitLength(w + trim + 1, trim) <= Max(0, trim + 1));
    }
  }

  /** So any hit the trimmed cache manager returns for a prompt ends with an exact window and
      mask, from arbitrary stale contents and for every chunking of the rest. */
  lemma TrimmedHitExact<T>(row: seq<T>, hist: seq<T>, hit: nat, chunks: seq<seq<T>>, trim: nat)
    requires 0 < |row| && 0 < |hist| && trim >= |row| - 1
    requires hit <= MaxHitLength(|hist|, trim) && Flatten(chunks) == hist[hit..]
    ensures Exact(AfterChunks(row, hit, chunks), hist)
  {
    TrimSufficesIff(trim, |row|);
    HitWithinTrimExact(row, hist, hit, chunks);
  }
}
