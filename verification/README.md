# Serving-stack verification models

Dafny models of the stateful and numeric cores of the serving stack, with proofs of what each is
for. `dafny verify dfyconfig.toml` checks all of it.

- **Draft ring.** `DraftRing` treats one row of the speculative drafter's window: the slot
  arithmetic of `ring_ingest`, the visibility mask, prefix-cache hits and their trim. `RingRuns`
  lifts it to whole serving runs (admissions, prefill chunks, draft steps with rejections, the
  steady flag that skips mask rebuilds). `RingLayer` is the in-place side, a class with the K, V
  and mask buffers whose `Propose` is proved to be one step of `RingRuns` for every order in which
  the scatter's writes may land.
- **Training loader.** `TrainingStreams` stitches per-step captures into streams, indexes them
  later file wins and reads windows back through the FIFO file cache. `TrainingServing` follows one
  request through whole serving runs and proves that what attention is shown is the training sample.
- **Doorbell all-reduce.** `Doorbell` interleaves four hosts, four GPU workers and the wire through
  two exchange rounds per sequence: safety, result, termination and absence of deadlock.
- **Distributed top-k.** `DcpTopK` proves the candidate exchange exact, with the interleaved
  shards; `FusedGather` the fused all-gather and the deferred hand-off.
- **Trellis codec.** `Bits`, `Trellis` (the greedy pass as a specification), `TrellisEncoders` (the
  three encoders in place) and `Unpack` (the cross-word bit unpacker).
- **Compact KV record.** `Nvfp4` (number formats and error bounds over exact reals), `Nvfp4Writer`
  (packing, reading back and the fused kernel), `Nvfp4Cache` (paged cache over runs).
- **Input preparation kernel.** `PrepareInputs`: which cell each program instance writes, and why
  the schedule does not matter.
- **Small algorithms.** `HotSplit` (hot/cold expert planner) and `BusySweep` (interval union).
- `ModArith`, `Prelude`, `Reals` and `ParallelStores` hold shared arithmetic, small definitions and
  the semantics of racing stores.

## What the code does that its comments do not say

Each of these is proved as a condition that holds if and only if the property does.

- Skipping the mask rebuild equals rebuilding for a fixed set of active rows, but a row that joins
  while the flag is steady keeps its old mask (`RingRuns.SkipExactIff`,
  `RingRuns.JoiningRowStaysHidden`). At its own batch position, once its cached prefix is out of the
  window, it may hide part of the window; it exposes nothing else (`RingRuns.StepExposure`).
- While a cached prefix still reaches into the window, a request is shown stale slots even at its own
  position with every default in place: any chunk shorter than the window after a cache hit does it
  (`RingRuns.OwnPositionSafeIff`, `RingRuns.PrefillShowsStale`). The trim makes the window exact only
  once the prompt is complete (`DraftRing.TrimmedHitExact`).
- Mask rows are written through `idx_mapping` and read by batch position; the two agree only under
  the condition of `RingRuns.PositionReadsRightMaskIff`, which an identity mapping meets. A permuted
  mapping can expose stale tokens too; the exact condition, cached prefix included, is that of
  `RingRuns.PositionSafeIff` and `RingRuns.MappingSafeIff`.
- The training loader opens a stream at position 0 only, so a request with a cache hit joins the
  stream of the request before it (`TrainingStreams.StitchRecoversIff`), and anchors just past its
  cached prefix are given the other request's tokens (`TrainingStreams.TwoRequestsMixed`). Which
  windows of such a stream are right is `TrainingStreams.MergedWindowIff`.
- A batch row whose tokens are all rejected writes a live slot, not the trash slot
  (`RingLayer.RejectedGoesToTrashIff`).
- The prefix-cache trim needs only w - 1 tokens; w, the default, is one more than needed
  (`DraftRing.TrimSufficesIff`, `DraftRing.HitExactIff`).
- `encode_tile_vec` is the greedy encoder for every table only for K <= 4: its choice matrix always
  has sixteen rows (`Trellis.VecAgreesIff`; for one table, `Trellis.VecAgreesForTableIff`).
- A trellis element is stable under the rest of the pass only if its window does not wrap. The
  codec's comment says later passes re-encode early elements; they do, but for every number of
  passes some table and targets leave a wrapped element with a worse value than its own field could
  give (`Trellis.StableIffNoWrap`, `Trellis.OptimalIffNoWrap`).
- The deferred gather is the immediate one only if every deferring layer gathers its queries over
  the candidates' group, one query row per decode row (`FusedGather.DeferredIff`). PCP and
  replicated queries leave the set parked, and a mixed batch of decode and prefill rows fails
  (`FusedGather.MixedBatchFails`). The overlay's own record keeps the fused path parked because its
  outputs differed; the model shows the hand-off right for pure decode batches and wrong for these.
- The planner's text says experts never routed to are cold regardless; with a large `min_hot`, or a
  target above one, they are not (`HotSplit.UnusedHotIff`), a layer without hits can fail with an index error
  (`HotSplit.IndexErrorIff`), and the fill-up loop after the greedy one is dead code
  (`HotSplit.StopsLate`).

## Premises

- Draft ring: every request keeps at least one token per step, rejected tokens are dropped from the
  ring and from mask depths (both defaults), batch rows are distinct, w is at most 2^40, and a
  cache hit never exceeds the maximum length passed to the coordinator. Claims about skipped masks
  also assume that the host's bound exceeds the accepted length by at most gamma.
- Captures: one request at a time, every step captured with its true positions, at most K rejected
  tokens per step. The comparison with serving is at a request's own batch position, with a mask row
  that was rebuilt or already open; it covers cache hits. A request alone in its stream needs nothing
  more; one that shares it needs a window clear of the others.
- Doorbell: writes posted on one endpoint land in order; a send completion is reported only after
  delivery; the eight-byte control writes are inlined, the payload is read when it lands; the two
  GPU reductions are one elementwise operation, commutative where results of ranks are compared.
- Top-k: each rank's selection is a top-k of its shard with every position once, and the selection
  kernel returns k best of the gathered entries, padding lowest; both kernels are outside the
  repository. In the deferred hand-off every indexer run covers some rows, and a layer
  without a run has no query rows or serves the same batch as the layer before it. `DcpMergeExact` fixes the order
  as score, then lower id; `MergeExact` allows any tie-breaking.
- Codec: the codeword-to-value table is an arbitrary function to reals; argmin is the first minimum.
- KV record: floating-point operations are parameters; the kernel and the reference share them, as
  the source's comments on exact division intend. The error bounds are over exact reals with E4M3
  rounding to nearest under any tie rule, for finite inputs in range.
- Input preparation: `idx_mapping` is injective, each request has a non-rejected token, and the
  number of query tokens is K, plus one when the anchor is not sampled from.
- Trace events are sorted by start and have non-negative durations.

## Model

| member | source | states |
|---|---|---|
| DraftRing.LastAt | overlays/dspark-ring/qwen3_dflash.py:356-370 | The slot arithmetic: each slot has exactly one position among the w before the end, and it is below the end. |
| DraftRing.ChunkingIrrelevant | overlays/dspark-ring/qwen3_dflash.py:357-374 | Cutting a prompt into prefill chunks of any lengths, longer than the ring included, leaves the same ring as one ingest of the whole. |
| DraftRing.IngestKeepsHolds | overlays/dspark-ring/qwen3_dflash.py:357-374 | Ingesting a block keeps: every slot whose latest position was ingested holds that position's token. |
| DraftRing.VisiblePrefix | overlays/dspark-ring/dflash_speculator.py:627-632 | A prefix mask of depth m exposes exactly the first m slots. |
| DraftRing.RowIsRotation | overlays/dspark-ring/qwen3_dflash.py:365-374 | The live part of a row that holds its history is a rotation of the last min(n, w) tokens. |
| DraftRing.ExposesWindow | overlays/dspark-ring/dflash_speculator.py:620-632 | What the mask exposes is each of the last min(n, w) tokens exactly once and nothing else. |
| DraftRing.ExposureSafeIff | overlays/dspark-ring/qwen3_dflash.py:395-406 | For any mask over a row that holds its history from the end of the cached prefix on: whatever the stale contents, nothing but window tokens is read, each at most once, if and only if every slot the mask opens has its latest position ingested, that is, accepted and not before the end of the cached prefix. |
| DraftRing.PrefixIngestedIff | overlays/dspark-ring/dflash_speculator.py:626-632 | A mask of depth m meets that if and only if it is empty or the cached prefix ends at or before the oldest of the latest positions of its first m slots. |
| DraftRing.FullDepthIngestedIff | overlays/dspark-ring/dflash_speculator.py:626-632 | At the request's own full depth: if and only if the cached prefix no longer reaches into the window. |
| DraftRing.HitExactIff | overlays/dspark-ring/kv_cache_manager.py:274-287 | For a prefix-cache hit, exposure is exact for every stale ring content and every chunking of the recomputed part if and only if hit <= max(0, N - w). |
| DraftRing.HitWithinTrimExact | overlays/dspark-ring/kv_cache_manager.py:279-282 | From arbitrary stale contents, any hit up to max(0, N - w) followed by any chunking of the rest ends with an exact window. |
| DraftRing.DeepHitShowsStale | overlays/dspark-ring/kv_cache_manager.py:33-47 | Any deeper hit leaves a stale slot visible, on a ring of stale values, for every chunking. |
| DraftRing.MaxHitIsLongest | overlays/dspark-ring/kv_cache_manager.py:279-282 | A hit is within the trimmed maximum if and only if it is empty or leaves the trim and one more token of the prompt to run. |
| DraftRing.TrimSufficesIff | overlays/dspark-ring/kv_cache_manager.py:279-282 | The trimmed maximum hit length is shallow enough for every prompt length if and only if trim >= w - 1; so the default, w, is. |
| DraftRing.TrimmedHitExact | overlays/dspark-ring/kv_cache_manager.py:279-287 | Any hit the trimmed cache manager returns, followed by any chunking of the rest of the prompt, ends with an exact window from arbitrary stale contents. |
| RingRuns.ApplyKeepsHold | overlays/dspark-ring/dflash_speculator.py:594-632 | Any admission or step, with rejected tails, keeps every row holding its request's accepted tokens, whether or not the mask is rebuilt. |
| RingRuns.RunHolds | overlays/dspark-ring/qwen3_dflash.py:354-374 | Ring invariant over all runs of admissions, prefill chunks and draft steps with rejections, from any start-up contents. |
| RingRuns.StepExposure | overlays/dspark-ring/qwen3_dflash.py:388-406 | After a step, at a batch position that is its own ring row, with the cached prefix out of the window: attention reads nothing outside the last w accepted tokens even when the rebuild was skipped, and exactly those when its mask row is exact. With a cached prefix still in the window, nothing outside where the mask opens ingested slots only. |
| RingRuns.OwnPositionSafeIff | overlays/dspark-ring/dflash_speculator.py:620-632 | At its own position after a rebuild a request reads nothing outside its window, for every stale ring content, if and only if its cached prefix no longer reaches into the window. |
| RingRuns.PrefillShowsStale | overlays/dspark-ring/kv_cache_manager.py:279-282 | The failing step: on a ring of stale tokens, any cache hit within the trim followed by a first chunk shorter than the window shows stale tokens at the request's own position. |
| RingRuns.PrefillExample | overlays/dspark-ring/qwen3_dflash.py:388-406 | One such run: three slots, a prompt of six tokens, a hit of two, a first chunk of one. |
| RingRuns.PositionSafeIff | overlays/dspark-ring/qwen3_dflash.py:388-406 | For any mapping of positions to rows: position i is safe for every stale ring content if and only if the mask row at position i opens only slots whose latest position its request has ingested. |
| RingRuns.MappingSafeIff | overlays/dspark-ring/dflash_speculator.py:620-632 | Which mappings are safe for every stale ring content after a rebuild: the depth of the request owning row i opens nothing older than the cached prefix of the request at position i, nor anything past its history; or, without an owner in the batch, the old mask row did not. |
| RingRuns.SkipExactIff | overlays/dspark-ring/dflash_speculator.py:613-635 | After a step a batch row's mask is exact if and only if it was rebuilt or was already fully open. |
| RingRuns.ShallowStepExact | overlays/dspark-ring/dflash_speculator.py:613-632 | With some bound at most w + gamma, or the flag not set, every row of the batch gets its exact mask; otherwise no mask changes. |
| RingRuns.SteadyIff | overlays/dspark-ring/dflash_speculator.py:613-635 | After a step the flag says whether every bound exceeded w + gamma. |
| RingRuns.FixedStep | overlays/dspark-ring/dflash_speculator.py:610-635 | For fixed membership, one step with the skip equals one step with the rebuild, and the flag's meaning is kept. |
| RingRuns.SkipRefinesRebuild | overlays/dspark-ring/dflash_speculator.py:610-635 | For a fixed set of active rows and bounds within gamma of the accepted count, skipping equals rebuilding every step, over every run. |
| RingRuns.JoiningRowStaysHidden | overlays/dspark-ring/dflash_speculator.py:616-635 | With changing membership it does not: a concrete run where a joining row keeps a stale shallow mask that a rebuild would have opened. |
| RingRuns.PositionReadsRightMaskIff | overlays/dspark-ring/qwen3_dflash.py:388-404 | Mask rows are written by ring row and read by batch position: position i reads the depth its request needs exactly when the owner of row i is clamped to the same depth, or nobody owns it and its old mask already had that depth. |
| RingRuns.AttentionSeesWindow | overlays/dspark-ring/qwen3_dflash.py:388-404 | End to end: after every legal run and one more step, an entry at its own batch position, with a rebuilt or open mask and its cached prefix out of the window, is shown exactly its last min(n, w) accepted tokens. |
| RingLayer.RejectedGoesToTrashIff | overlays/dspark-ring/dflash_speculator.py:594-609 | A rejected token goes to the trash slot if and only if its row also has a token that was not rejected; otherwise it overwrites a live slot. |
| RingLayer.RowMaxima | overlays/dspark-ring/qwen3_dflash.py:362-365 | The row-maximum reduction computes RowMax for every row present. |
| RingLayer.Scatter | overlays/dspark-ring/qwen3_dflash.py:373-374 | An indexed store whose writes land in any order: each cell ends with one of its writers' values, or unchanged without one. |
| RingLayer.RepeatInterleave | overlays/dspark-ring/dflash_speculator.py:583-603 | Each segment of the token axis carries its request's entry. |
| RingLayer.RowMaxIsLastAccepted | overlays/dspark-ring/dflash_speculator.py:594-609 | With the redirect, the row maximum the ingest sees is the last accepted position. |
| RingLayer.WriterIsLast | overlays/dspark-ring/qwen3_dflash.py:366-370 | The only token of a row written to a live slot is the one at that slot's last accepted position. |
| RingLayer.CellAfter | overlays/dspark-ring/qwen3_dflash.py:366-374 | So a live cell's value after the scatter does not depend on the write order. |
| RingLayer.BatchRowAfter | overlays/dspark-ring/qwen3_dflash.py:354-374 | After both scatters a batch row is the ingest of its accepted tokens. |
| RingLayer.RebuildIsNewMask | overlays/dspark-ring/dflash_speculator.py:620-632 | The rebuilt mask rows are those the run model prescribes. |
| RingLayer.DraftLayer.constructor | overlays/dspark-ring/qwen3_dflash.py:294-312 | Zeroed ring with a trash slot and fully open masks: an initial state of the run model. |
| RingLayer.DraftLayer.RingIngest | overlays/dspark-ring/qwen3_dflash.py:347-374 | Every live cell of K and V ends with a writer's value, whatever orders the two scatters use. |
| RingLayer.DraftLayer.SetContext | overlays/dspark-ring/dflash_speculator.py:577-609 | Rows and positions of the context tokens, rejected tails redirected far negative. |
| RingLayer.DraftLayer.RebuildMask | overlays/dspark-ring/dflash_speculator.py:626-632 | The batch's mask rows become prefix masks of the given depths; other rows are unchanged. |
| RingLayer.DraftLayer.UpdateMask | overlays/dspark-ring/dflash_speculator.py:610-635 | The mask is rebuilt unless the flag is steady and the batch deep, and the flag is refreshed. |
| RingLayer.DraftLayer.IngestContext | overlays/dspark-ring/qwen3_dflash.py:751-768 | The ingest of a step turns every ring row into its successor in the run model. |
| RingLayer.DraftLayer.Propose | overlays/dspark-ring/dflash_speculator.py:577-635 | The whole ring branch, in place and with any write orders, is one step of the run model. |
| TrainingStreams.Stitch | dspark-training/dspark_finetune.py:320-334 | The stitching loop computes the streams: position 0 opens one, empty files are ignored. |
| TrainingStreams.StitchGroupsRequests | dspark-training/dspark_finetune.py:326-334 | What stitching makes of requests served one after the other, whatever their cached prefixes: one that starts past position 0 joins the stream before it. |
| TrainingStreams.StitchRecoversIff | dspark-training/dspark_finetune.py:326-334 | Their files are cut back into exactly one stream per request if and only if every request after the first starts at position 0. |
| TrainingStreams.EmptyFileIgnored | dspark-training/dspark_finetune.py:325-334 | A capture file without tokens changes no stream, wherever it stands. |
| TrainingStreams.TwoRequestsMixed | dspark-training/dspark_finetune.py:326-342 | The failing input: a request from position 0, then one with a cached prefix no longer than the first one's file. One stream, nothing dropped, anchors just past the cached prefix not refused, and below it the window holds the first request's tokens. |
| TrainingStreams.BuildIndex | dspark-training/dspark_finetune.py:339-342 | Overwriting file by file leaves every covered position at the last file covering it. |
| TrainingStreams.IndexReadsAccepted | dspark-training/dspark_finetune.py:339-342 | For a request alone in its stream, after any cached prefix and with any rejections, the later-file-wins index reads the accepted token at every accepted position. |
| TrainingStreams.IndexedRange | dspark-training/dspark_finetune.py:339-343 | An indexed position lies past the cached prefix and reaches fewer than K past the history. |
| TrainingStreams.FrontierDropped | dspark-training/dspark_finetune.py:336-343 | Of a request alone in its stream exactly the positions covered by its steps are indexed, its last step not counted when it has fewer than 64 tokens and is not the only one. |
| TrainingStreams.AnchorAcceptedIff | dspark-training/dspark_finetune.py:395-399 | There an anchor passes the hole check if and only if its window starts past the cached prefix and its last label lies below the end of what those steps cover. |
| TrainingStreams.FrontierExample | dspark-training/dspark_finetune.py:336-338 | A prefill of 600 tokens and a decode step of 6, five labels: the anchor at 600 is refused, the one at 594 is not. |
| TrainingStreams.MergedReadIff | dspark-training/dspark_finetune.py:339-342 | In a stream shared with other requests a position is read from the step of this request that accepted it if and only if the request ran and accepted it and no later request's file covers it. |
| TrainingStreams.MergedWindowIff | dspark-training/dspark_finetune.py:395-399 | So a sample there reads this request's accepted tokens only if and only if its window lies between the end of the cached prefix and the end of the accepted history, clear of later requests' files. |
| TrainingStreams.SampledWindowVerified | dspark-training/dspark_finetune.py:336-338 | For a request alone in its stream, any sampled anchor and its window lie past the cached prefix and inside the verified history and read the accepted tokens, whether or not the last file was dropped. |
| TrainingStreams.FileCache.Load | dspark-training/dspark_finetune.py:362-369 | The FIFO cache of twelve files returns what is on disk and evicts the oldest file. |
| TrainingStreams.FileCache.WindowAux | dspark-training/dspark_finetune.py:371-384 | Run-grouped slices read exactly the positions [lo, hi) in order; an empty range has no rows to return. |
| TrainingStreams.FileCache.SampleAnchor | dspark-training/dspark_finetune.py:395-420 | A hole is refused; otherwise the sample is the left-padded window, its positions and flags, the anchor id and K label ids, each from the last covering file. |
| TrainingStreams.FileCache.ReadIds | dspark-training/dspark_finetune.py:412-420 | The token ids at a .. a + K, each from the last covering file. |
| TrainingStreams.SampleIsWindow | dspark-training/dspark_finetune.py:396-410 | The unpadded (position, state) pairs of such a sample are the last min(a, W) of the request's first a tokens, in order; the hole check keeps the cached prefix out. |
| TrainingStreams.SharedSampleIsWindow | dspark-training/dspark_finetune.py:396-410 | The same in a shared stream for a window clear of the cached prefix and of later requests' files. |
| TrainingStreams.TrainingEqualsServing | dspark-training/dspark_finetune.py:300-420 | For any anchor, inside a step too: a ring row fed the accepted tokens below it after any cached prefix, in any chunks, from any stale row, exposes through a mask of that depth exactly the sample's pairs. |
| TrainingServing.RunTracks | overlays/dspark-ring/dflash_speculator.py:577-635 | Over every serving run a request has, past its cached prefix, the history its own batch entries had accepted. |
| TrainingServing.CapturedHistory | dspark-training/dspark_finetune.py:326-342 | What those entries had accepted is the history that the captured steps spell out, position by position from the end of the cached prefix. |
| TrainingServing.ServedWindowIsSample | dspark-training/dspark_finetune.py:300-420 | Training windows equal serving windows: after any legal serving run with cache hits, rejections, other requests and skipped rebuilds, what attention is shown at a request's own batch position, its mask row rebuilt or open, is exactly the pairs of the training sample at its length, for a request alone in its stream. |
| TrainingServing.ServedWindowIsSharedSample | dspark-training/dspark_finetune.py:300-420 | The same for a request in a stream shared with others, for windows clear of its cached prefix and of later requests' files. |
| Doorbell.InitialInv | campaign-2026-08/sircl/upstream/app/tp4_probe.cpp:226-241 | The start state satisfies the invariant. |
| Doorbell.HostKeeps | campaign-2026-08/sircl/upstream/app/tp4_probe.cpp:143-173 | Every host step of an exchange keeps the invariant. |
| Doorbell.GpuKeeps | campaign-2026-08/sircl/upstream/src/gpu_tp4.cu:78-187 | Every step of the GPU worker keeps the invariant. |
| Doorbell.DeliverKeeps | campaign-2026-08/sircl/upstream/src/verbs_endpoint.cpp:209-230 | Every landing of a remote write keeps the invariant. |
| Doorbell.RunKeeps | campaign-2026-08/sircl/upstream/app/tp4_probe.cpp:250-266 | The invariant holds after every interleaved run. |
| Doorbell.FlowControl | campaign-2026-08/sircl/upstream/app/tp4_probe.cpp:152-172 | A host has posted at most one payload more than its partner's GPU has consumed, a bell is never ahead of its payload, and what has landed is the sender's contribution. |
| Doorbell.PayloadLandsAfterConsumption | campaign-2026-08/sircl/upstream/app/tp4_probe.cpp:152-171 | Over all runs, a payload of sequence s lands only after its receiver consumed s - 1, and what lands is the sender's contribution to s. |
| Doorbell.ReadsOwnSequence | campaign-2026-08/sircl/upstream/src/gpu_tp4.cu:99-118 | A consumer past its bell for s has the partner's payload of s in its receive buffer. |
| Doorbell.NoOverwriteWhileReading | campaign-2026-08/sircl/upstream/src/gpu_tp4.cu:99-122 | No step of any thread changes the receive buffer between the bell and the published consumption. |
| Doorbell.SendStable | campaign-2026-08/sircl/upstream/app/tp4_probe.cpp:152-160 | While a payload is in flight its send buffer holds the contribution of that sequence, and the GPU cannot overwrite it. |
| Doorbell.TotalsAgree | campaign-2026-08/sircl/upstream/src/gpu_tp4.cu:105-148 | With commutative addition the four ranks' two-round sums are the same value. |
| Doorbell.AllReduceResult | campaign-2026-08/sircl/upstream/src/gpu_tp4.cu:144-178 | After both rounds of a sequence a rank's output is the four-way sum, the same on every rank. |
| Doorbell.PartnersInStep | campaign-2026-08/sircl/upstream/app/tp4_probe.cpp:250-266 | Paired ranks are never more than one sequence apart. |
| Doorbell.MeasureDecreases | campaign-2026-08/sircl/upstream/app/tp4_probe.cpp:250-266 | Every step decreases a natural-number measure. |
| Doorbell.RunBounded | campaign-2026-08/sircl/upstream/app/tp4_probe.cpp:250-266 | So every run is finite, bounded by the initial measure. |
| Doorbell.NeverStuck | campaign-2026-08/sircl/upstream/app/tp4_probe.cpp:143-173 | Some step is enabled in every unfinished state with the invariant. |
| Doorbell.MaximalRunCompletes | campaign-2026-08/sircl/upstream/app/tp4_probe.cpp:250-268 | A run that cannot be extended has finished every sequence with the four-way sum of the last one on all ranks. |
| DcpTopK.MergeExact | overlays/fused-dcp-gather/sparse_attn_indexer.stock+fused.py:148-192 | For any shards, any k and any local tie-breaking, shards shorter than k included, a top-k of the gathered local top-k lists is a top-k of the whole row. |
| DcpTopK.CrowdedOut | overlays/fused-dcp-gather/sparse_attn_indexer.stock+fused.py:158-165 | The reason given there: a dropped candidate has k local rivals, so it cannot beat a selected one. |
| DcpTopK.MergeExactIff | overlays/fused-dcp-gather/sparse_attn_indexer.stock+fused.py:148-192 | Under a strict total order, a set is the top-k of the gathered candidates if and only if it is the top-k of the row. |
| DcpTopK.TopKUnique | overlays/fused-dcp-gather/sparse_attn_indexer.stock+fused.py:189-192 | Under a strict total order the top-k is unique. |
| DcpTopK.TopKExists | overlays/fused-dcp-gather/sparse_attn_indexer.stock+fused.py:189-192 | A top-k always exists. |
| DcpTopK.InterleaveBijection | overlays/vllm/v1/attention/backends/mla/sparse_utils.py:74-78 | Local-to-global and global-to-local are inverse to each other, and the local length formula counts exactly the tokens of the row a rank owns. |
| DcpTopK.ShareCounts | overlays/vllm/v1/attention/backends/mla/indexer.py:343-348 | A local position is below the local length if and only if its global token lies in the row. |
| DcpTopK.RealOfConcat | overlays/fused-dcp-gather/sparse_attn_indexer.stock+fused.py:188-189 | Padding drops out: the real candidates of the gathered list are the union of the ranks' real ones. |
| DcpTopK.ShardsCoverRow | overlays/vllm/v1/attention/backends/mla/sparse_utils.py:74-78 | The interleaved shards together are the row. |
| DcpTopK.ShardRowIsShard | overlays/fused-dcp-gather/sparse_attn_indexer.stock+fused.py:178-187 | A rank's own row, relabelled with global ids, is its shard. |
| DcpTopK.DcpMergeExact | overlays/fused-dcp-gather/sparse_attn_indexer.stock+fused.py:148-192 | The real candidates of the gathered lists have exactly the row's top-k as their top-k, with interleaving and packing. |
| DcpTopK.SelectionIsTopK | overlays/fused-dcp-gather/sparse_attn_indexer.stock+fused.py:189-192 | With padding ranking lowest, whatever the selector returns has the top-k of the real candidates as its real part: padding is returned only when no real candidate is left out. |
| DcpTopK.DcpSelectionExact | overlays/fused-dcp-gather/sparse_attn_indexer.stock+fused.py:148-192 | End to end, padding included: the real entries returned from the gathered lists are the k best tokens of the row, each once, and the other entries are padding. |
| DcpTopK.DcpSelectionByScore | overlays/fused-dcp-gather/sparse_attn_indexer.stock+fused.py:158-192 | In scores and ids: as many tokens as there are, up to k; each with its own score; no token left out scores higher than a returned one, and on equal scores the returned one has the lower id. |
| FusedGather.SliceOfGather | benchmarks/comm/dcp_gather_equivalence.py:10-20 | Per-rank columns of a gather are the gather of those columns. |
| FusedGather.FusedGatherExact | benchmarks/comm/dcp_gather_equivalence.py:13-20 | Slicing the one gather of q beside p gives exactly the two separate gathers, for every number of ranks, batch and row size. |
| FusedGather.GatheredEntry | benchmarks/comm/dcp_gather_equivalence.py:13-20 | Column w d + c of a gathered row is rank w's column c. |
| FusedGather.ConsumersDeliver | overlays/vllm/model_executor/layers/attention/mla_attention.py:933-963 | Whatever the contents, if every deferring layer consumes its own set, all layers read what the immediate path reads and nothing stays parked. |
| FusedGather.StuckFails | overlays/vllm/model_executor/layers/attention/mla_attention.py:923-963 | A set still parked when a later run has replaced the selection is never delivered, in any continuation. |
| FusedGather.DeferredIff | overlays/vllm/model_executor/layers/attention/mla_attention.py:923-968 | Over every trace, for contents that differ between runs, the deferred path delivers if and only if every run with decode rows and no padding has no PCP, no replicated queries and as many query rows as decode rows. |
| FusedGather.DeliveredForAllContentsIff | overlays/vllm/model_executor/layers/attention/mla_attention.py:923-968 | The same over all contents: traces of given shapes are always delivered if and only if that holds. |
| FusedGather.PaddedDelivers | overlays/fused-dcp-gather/sparse_attn_indexer.stock+fused.py:736-755 | A trace in which every run is padded or has no decode rows is delivered, for all contents, configurations and numbers of query rows: nothing is deferred. |
| FusedGather.MixedBatchFails | overlays/vllm/model_executor/layers/attention/mla_attention.py:792-813 | The failing input: a batch of deferred decode rows and prefill rows that attention takes along fails the row-count check, where the immediate path reads every row. |
| FusedGather.UnconsumedFails | overlays/fused-dcp-gather/sparse_attn_indexer.stock+fused.py:89-91 | A set that PCP, replicated queries or an empty query batch leave parked makes the next deferral fail. |
| FusedGather.PendingTopK.Defer | overlays/fused-dcp-gather/sparse_attn_indexer.stock+fused.py:89-94 | Parks a candidate set; refused, with nothing changed, while one is parked. |
| FusedGather.PendingTopK.Take | overlays/fused-dcp-gather/sparse_attn_indexer.stock+fused.py:108-113 | Hands over the parked set and clears the slot. |
| FusedGather.PendingTopK.RunIndexer | overlays/fused-dcp-gather/sparse_attn_indexer.stock+fused.py:499-755 | The indexer half of a layer, prefill rows merged at once and decode rows deferred unless padded, is one step of the deferred path. |
| FusedGather.PendingTopK.RunLayer | overlays/vllm/model_executor/layers/attention/mla_attention.py:789-968 | One layer through the slot and the buffer, row-count check included, is one step of the deferred path. |
| Bits.BitValue | campaign-2026-08/tailquant/codec/roundtrip.py:124-125 | Bit j of a weighted sum of bits is the j-th of them. |
| Bits.MaskedShift | campaign-2026-08/tailquant/codec/roundtrip.py:70-73 | Masking a shifted number, negative ones included, reads a slice of its bits. |
| Bits.MaskIsMod | campaign-2026-08/tailquant/codec/roundtrip.py:70-73 | The mask of the low bits is the remainder modulo a power of two. |
| Trellis.FirstMinIs | campaign-2026-08/tailquant/codec/encode_vec2.py:82-82 | argmin as the first minimum: least, and strictly below everything before it. |
| Trellis.WindowSplit | campaign-2026-08/tailquant/codec/encode_vec2.py:61-68 | The last K bits of an element's window are its own field, in order, and no other position of the window lies in it. |
| Trellis.WindowContiguous | campaign-2026-08/tailquant/codec/mcg_codec.py:129-136 | The sixteen positions of a window follow each other around the ring. |
| Trellis.CandidateCodeword | campaign-2026-08/tailquant/codec/mcg_codec.py:128-137 | A candidate's codeword is the context bits plus the choice shifted above them. |
| Trellis.BestIsBest | campaign-2026-08/tailquant/codec/mcg_codec.py:132-141 | The greedy choice has the least error among all choices. |
| Trellis.PassUnique | campaign-2026-08/tailquant/codec/mcg_codec.py:146-148 | A pass is determined by the ring it starts from. |
| Trellis.GreedyStable | campaign-2026-08/tailquant/codec/mcg_codec.py:128-148 | After a full pass an element whose window does not wrap keeps the codeword chosen at its own turn, and no other choice of its field has a smaller error against the final ring. |
| Trellis.StableIffNoWrap | campaign-2026-08/tailquant/codec/mcg_codec.py:128-148 | In the last of any number p >= 1 of passes from zeros, an element's codeword survives from its turn to the end, for all tables and targets, if and only if (t + 1) K >= 16. |
| Trellis.OptimalIffNoWrap | campaign-2026-08/tailquant/codec/mcg_codec.py:117-148 | And after any number of passes its value is the best its own field can give, for all tables and targets, if and only if (t + 1) K >= 16. |
| Trellis.FlagRun | campaign-2026-08/tailquant/codec/mcg_codec.py:117-148 | The failing input of a wrapped element, for every number of passes: it met its target at its turn, misses it at the end, and another choice of its field would meet it. |
| Trellis.PackedBit | campaign-2026-08/tailquant/codec/mcg_codec.py:149-157 | Bit i of the packed words is bit i of the ring. |
| Trellis.DecodePacked | campaign-2026-08/tailquant/codec/mcg_codec.py:87-104 | Decoding the packed words reads the ring's codewords. |
| Trellis.DecodeGivesChosenValue | campaign-2026-08/tailquant/codec/mcg_codec.py:82-157 | Through packing and decoding an element whose window does not wrap gets the value of its own turn, which no other choice of its field improves. |
| Trellis.VecCandidate | campaign-2026-08/tailquant/codec/encode_vec2.py:80-81 | Clearing the own bits and adding the choice back gives the codeword that writing the bits one by one gives. |
| Trellis.VecRefines | campaign-2026-08/tailquant/codec/encode_vec2.py:76-84 | For K <= 4 the vectorised element step gives the same ring as the scalar one, for every ring, target and table. |
| Trellis.VecMissesSixteen | campaign-2026-08/tailquant/codec/encode_vec2.py:70-70 | From K = 5 on, a table for which the two differ: the choice matrix has sixteen rows only. |
| Trellis.VecAgreesIff | campaign-2026-08/tailquant/codec/encode_vec2.py:70-84 | The vectorised encoder agrees with the scalar one for every table, ring and target if and only if K <= 4. |
| Trellis.VecAgreesForTableIff | campaign-2026-08/tailquant/codec/encode_vec2.py:70-84 | For any one table: it agrees on every ring and target if and only if in every context each choice's value is among those of the first sixteen choices. |
| Trellis.LateChoiceMissed | campaign-2026-08/tailquant/codec/encode_vec2.py:70-84 | The failing ring and target for a table where it is not. |
| TrellisEncoders.WriteField | campaign-2026-08/tailquant/codec/mcg_codec.py:134-135 | Writing a choice bit by bit sets the element's own field and nothing else. |
| TrellisEncoders.ReadCodeword | campaign-2026-08/tailquant/codec/mcg_codec.py:136-137 | The shifted sum of the window's bits is its codeword. |
| TrellisEncoders.EncodeElement | campaign-2026-08/tailquant/codec/mcg_codec.py:128-144 | The trial-ring candidate loop makes the greedy step and returns its error. |
| TrellisEncoders.EncodeElementInPlace | campaign-2026-08/tailquant/codec/roundtrip.py:110-123 | The candidate loop that tries its choices in the ring itself makes the same greedy step. |
| TrellisEncoders.FindSlots | campaign-2026-08/tailquant/codec/encode_vec2.py:61-68 | The slot table: every own-field bit is found in its window, at the top K places. |
| TrellisEncoders.ClearOwnBits | campaign-2026-08/tailquant/codec/encode_vec2.py:79-80 | Subtracting the own bits leaves the value of the context bits. |
| TrellisEncoders.VecCandidateCodeword | campaign-2026-08/tailquant/codec/encode_vec2.py:81-81 | A candidate of the vectorised encoder. |
| TrellisEncoders.EncodeElementVec | campaign-2026-08/tailquant/codec/encode_vec2.py:76-84 | One vectorised element step, in place. |
| TrellisEncoders.PackWords | campaign-2026-08/tailquant/codec/mcg_codec.py:149-156 | The bit-by-bit packing loop. |
| TrellisEncoders.AddIsOr | campaign-2026-08/tailquant/codec/mcg_codec.py:153-155 | Adding a bit above the others is or-ing it in. |
| TrellisEncoders.VecPassIsPass | campaign-2026-08/tailquant/codec/encode_vec2.py:73-84 | For K <= 4 a vectorised pass is a greedy pass. |
| TrellisEncoders.EncodeTileVec | campaign-2026-08/tailquant/codec/encode_vec2.py:73-84 | The vectorised tile encoder, in place: a vectorised pass, and for K <= 4 the greedy pass. |
| TrellisEncoders.EncodeTile | campaign-2026-08/tailquant/codec/roundtrip.py:105-126 | The scalar tile encoder: one greedy pass from zeros, and the packed words. |
| TrellisEncoders.EncodePass | campaign-2026-08/tailquant/codec/mcg_codec.py:146-148 | One pass over the tile, in place. |
| TrellisEncoders.TileEncode | campaign-2026-08/tailquant/codec/mcg_codec.py:116-157 | A greedy pass and any number of refinement passes over the same ring, and the packed words. |
| TrellisEncoders.EncodedTileDecodes | campaign-2026-08/tailquant/codec/mcg_codec.py:82-157 | After any number of passes, an element whose window does not wrap decodes to a value no other choice of its field would improve. |
| Unpack.Padded | campaign-2026-08/tailquant/codec/roundtrip.py:58-62 | A row is zero-padded to the next whole group and not beyond. |
| Unpack.GatherIsOr | campaign-2026-08/tailquant/codec/roundtrip.py:70-74 | Adding the low and the shifted high part of a field is or-ing them. |
| Unpack.GatheredIsSlice | campaign-2026-08/tailquant/codec/roundtrip.py:65-74 | Both parts of a field together are a slice of the little-endian stream; sign extension is never seen. |
| Unpack.UnpackedElement | campaign-2026-08/tailquant/codec/roundtrip.py:57-76 | For every width from 1 to 8 and every row of words, element e is bits [e b, (e + 1) b) of the stream minus 2^(b - 1), never past its group, and fits the int8 result. |
| Unpack.StreamOfPacked | campaign-2026-08/tailquant/codec/roundtrip.py:57-76 | Cutting a bit stream into signed words loses nothing. |
| Unpack.UnpackInvertsPack | campaign-2026-08/tailquant/codec/roundtrip.py:57-76 | Unpacking inverts the natural packer, for every width and every list of in-range elements. |
| Nvfp4.E2M1Nearest | kernels/nvfp4_ds_mla_writer.py:65-76 | The E2M1 code is a nearest grid point, ties to the smaller magnitude, and code 8 is never produced. |
| Nvfp4.KernelCodeIsReference | kernels/nvfp4_ds_mla_writer.py:221-231 | The kernel's seven comparisons give the reference code on every input. |
| Nvfp4.QuotientNearest | kernels/nvfp4_ds_mla_writer.py:123-124 | A quotient's code is nearest to it among all sixteen, also when the quotient is clamped. |
| Nvfp4.EntryNearest | kernels/nvfp4_ds_mla_writer.py:123-124 | Scaled back, no other code comes closer to the entry; an entry beyond the clamp gets the largest code of its sign. |
| Nvfp4.ScaleNearest | kernels/nvfp4_ds_mla_writer.py:117-121 | The stored scale is a nearest E4M3 value to a sixth of the group maximum. |
| Nvfp4.E2M1Within | kernels/nvfp4_ds_mla_writer.py:65-85 | Inside the clamped range a code is within one unit of what it encodes. |
| Nvfp4.E4M3NormalError | kernels/nvfp4_ds_mla_writer.py:88-93 | E4M3 rounding error in the normal range: a sixteenth. |
| Nvfp4.E4M3SubnormalError | kernels/nvfp4_ds_mla_writer.py:88-93 | Below it: half the subnormal spacing. |
| Nvfp4.E4M3Vanishes | kernels/nvfp4_ds_mla_writer.py:119-122 | A scale below 1/1024 is stored as zero, and only up to there. |
| Nvfp4.ScaleBound | kernels/nvfp4_ds_mla_writer.py:117-121 | The stored scale lies between 15/96 and 17/96 of the group maximum. |
| Nvfp4.GroupError | kernels/nvfp4_ds_mla_writer.py:115-124 | For any group whose scale is in the normal range every dequantised entry is within one stored scale s of the original, and s <= 17 amax / 96. |
| Nvfp4.SmallGroupError | kernels/nvfp4_ds_mla_writer.py:115-124 | For any group whose scale is below the normal range, down to a zero scale: every dequantised entry is within one stored scale s, or 6/1024 where that is larger. |
| Nvfp4.RopeQuotient | kernels/nvfp4_ds_mla_writer.py:131-134 | RoPE entries divided by the row's scale stay in the finite range, so nothing is clamped. |
| Nvfp4Writer.ReaderRecoversCodes | kernels/nvfp4_ds_mla_writer.py:153-159 | The reader gets back every code and scale byte the writer computed. |
| Nvfp4Writer.ReaderRecoversRope | kernels/nvfp4_ds_mla_writer.py:160-162 | And every RoPE byte and the four bytes of the row's scale. |
| Nvfp4Writer.HalvesMax | kernels/nvfp4_ds_mla_writer.py:270-272 | The maximum over even and odd halves is the maximum over the group. |
| Nvfp4Writer.KernelScales | kernels/nvfp4_ds_mla_writer.py:272-281 | The kernel's scale bytes are the reference's. |
| Nvfp4Writer.KernelNibblesMatch | kernels/nvfp4_ds_mla_writer.py:284-288 | The kernel's nibble bytes are the reference's. |
| Nvfp4Writer.FieldsMakeRecord | kernels/nvfp4_ds_mla_writer.py:288-304 | The kernel's five stores together write every byte of one record and no other. |
| Nvfp4Writer.KernelInstance | kernels/nvfp4_ds_mla_writer.py:254-304 | A program instance stores exactly the 368 bytes of the reference record, at its slot or at slot 0 for padding. |
| Nvfp4Writer.NopeRoundTrip | kernels/nvfp4_ds_mla_writer.py:103-159 | In exact arithmetic with round-to-nearest E4M3, written and read back: every NoPE entry is within s latent_scale of the original, s <= 17 amax / 96. |
| Nvfp4Writer.SmallNopeRoundTrip | kernels/nvfp4_ds_mla_writer.py:103-159 | The same through the record for scales below the normal range: within s, or 6/1024 where that is larger, times latent_scale. |
| Nvfp4Writer.NopeNearest | kernels/nvfp4_ds_mla_writer.py:103-159 | Written and read back, for every group whose scale did not vanish, clamped entries included: no other code in the stored one's place would come closer to the original. |
| Nvfp4Writer.ScaleByteNearest | kernels/nvfp4_ds_mla_writer.py:117-121 | The scale byte in the record is nearest to a sixth of the group maximum. |
| Nvfp4Writer.RopeRoundTrip | kernels/nvfp4_ds_mla_writer.py:128-162 | Every RoPE value comes back within a sixteenth of itself, or 1/1024 of the row's scale where that is larger. |
| Nvfp4Writer.RopeNearest | kernels/nvfp4_ds_mla_writer.py:128-162 | And no other E4M3 code of either sign would come closer. |
| Nvfp4Writer.VanishingRoundTrip | kernels/nvfp4_ds_mla_writer.py:117-159 | A group whose scale rounds away is stored with a zero scale byte and read back as zeros; an all-zero group is stored as zero codes too. |
| Nvfp4Writer.VanishedCodes | kernels/nvfp4_ds_mla_writer.py:117-124 | Its entries above 6e-8 in magnitude are stored with the largest code of their sign, as the stand-in scale is 1e-8. |
| Nvfp4Writer.ExactOpsExist | kernels/nvfp4_ds_mla_writer.py:88-93 | Operations as the round trips assume them exist, for every row scale: exact arithmetic, a nearest E4M3 code with a sign bit, and a scale that survives being stored as four bytes. |
| Nvfp4Writer.PairIsOr | kernels/nvfp4_ds_mla_writer.py:125-125 | Adding the two nibbles is or-ing them. |
| Nvfp4Cache.LaunchWrites | kernels/nvfp4_ds_mla_writer.py:254-304 | One launch under any schedule: a slot >= 1 aimed at by a row gets that row's record, another keeps its bytes. |
| Nvfp4Cache.LaunchByRows | kernels/nvfp4_ds_mla_writer.py:254-304 | In the rows' own slots: a slot >= 1 a row names holds its record, one that no row names keeps its bytes. |
| Nvfp4Cache.CacheHoldsLatest | kernels/nvfp4_ds_mla_writer.py:254-304 | Over any sequence of launches and schedules every slot >= 1 holds its latest record; padding touches only slot 0. |
| Nvfp4Cache.WriteToKvCache | kernels/nvfp4_ds_mla_writer.py:168-195 | The plain writer scatters the records of a batch in place. |
| Nvfp4Cache.ScatteredAt | kernels/nvfp4_ds_mla_writer.py:188-195 | After it a slot holds the last record aimed at it, or what it held. |
| Nvfp4Cache.ScatterByRows | kernels/nvfp4_ds_mla_writer.py:188-195 | The same in the rows' own slots. |
| Nvfp4Cache.ScatterHoldsLatest | kernels/nvfp4_ds_mla_writer.py:168-195 | Over any sequence of batches the plain cache holds the latest records. |
| Nvfp4Cache.FusedMatchesPlain | kernels/nvfp4_ds_mla_writer.py:199-205 | After the same batches the fused kernel's cache equals the plain writer's on every byte of every slot >= 1. |
| ParallelStores.AgreedUnderAnySchedule | overlays/dspark-ring/dflash_speculator.py:780-896 | If all stores to a cell agree, every schedule leaves their value there. |
| ParallelStores.UntouchedUnderAnySchedule | overlays/dspark-ring/dflash_speculator.py:780-896 | A cell without stores keeps its value under every schedule. |
| PrepareInputs.ContextStore | overlays/dspark-ring/dflash_speculator.py:802-819 | A masked store of context lanes writes each of its cells once with the lane's value. |
| PrepareInputs.QueryStore | overlays/dspark-ring/dflash_speculator.py:821-839 | The same for query lanes. |
| PrepareInputs.SampleStore | overlays/dspark-ring/dflash_speculator.py:841-852 | The same for the lanes that are sampled from. |
| PrepareInputs.HeadStores | overlays/dspark-ring/dflash_speculator.py:854-865 | Per-request start, length and sampling state, stored by the first instance only. |
| PrepareInputs.PadLoop | overlays/dspark-ring/dflash_speculator.py:869-896 | A padding loop covers its range once, a vector at a time. |
| PrepareInputs.PadStores | overlays/dspark-ring/dflash_speculator.py:866-896 | Padding up to the captured maxima, by the last request's first instance. |
| PrepareInputs.KernelInstance | overlays/dspark-ring/dflash_speculator.py:780-896 | An instance stores to exactly the cells it owns, each once, with the values due there. |
| PrepareInputs.GridCovers | overlays/dspark-ring/dflash_speculator.py:935-941 | The launch grid covers the lanes of every request. |
| PrepareInputs.OwnerUnique | overlays/dspark-ring/dflash_speculator.py:780-896 | Distinct program instances write disjoint cells, for an injective idx_mapping and queries = K + sample_off. |
| PrepareInputs.OwnerExists | overlays/dspark-ring/dflash_speculator.py:854-896 | Every cell that is due has an owner in the grid, query, sample and padding cells up to their maxima included. |
| PrepareInputs.OwnedIsDue | overlays/dspark-ring/dflash_speculator.py:780-896 | And only those cells are written. |
| PrepareInputs.LaunchFills | overlays/dspark-ring/dflash_speculator.py:780-896 | Under any interleaving every due cell is written exactly once and ends with the one value its owner computes; no other cell changes. |
| PrepareInputs.QueryAfter | overlays/dspark-ring/dflash_speculator.py:793-839 | After the launch, from the inputs alone: the anchor cell holds the last sampled token of the request's state, or its next prefill token when nothing was sampled; the other query cells hold the mask token; the positions follow the last token not rejected, clamped; each slot lies in the block the table gives its position. |
| PrepareInputs.SampleAfter | overlays/dspark-ring/dflash_speculator.py:841-852 | Sample k points at the query cell of its own request whose position it predicts, or the one before it when sampling from the anchor, and names the request's state. |
| PrepareInputs.ContextAfter | overlays/dspark-ring/dflash_speculator.py:807-819 | A context token keeps its position and gets a slot in that position's block. |
| PrepareInputs.HeadAfter | overlays/dspark-ring/dflash_speculator.py:854-865 | Each request's query start, attended length, temperature and seed. |
| PrepareInputs.PaddingAfter | overlays/dspark-ring/dflash_speculator.py:866-896 | The padding of each buffer, up to the captured maxima. |
| PrepareInputs.QueriesContinue | overlays/dspark-ring/dflash_speculator.py:799-859 | Query positions continue right after the last accepted position, the k-th sample predicts the position k + 1 past it in both sampling modes, and the attended length ends with the last query. |
| HotSplit.OrderIs | campaign-2026-08/tailquant/split.py:42-42 | The order lists every expert once, more hits first, lower id first among equals. |
| HotSplit.ChooseHot | campaign-2026-08/tailquant/split.py:47-52 | The greedy loop stops at the first admissible prefix of the order. |
| HotSplit.SplitLayer | campaign-2026-08/tailquant/split.py:41-62 | The whole planner, including the layer without hits, the clamp and the index error. |
| HotSplit.HotAndColdPartition | campaign-2026-08/tailquant/split.py:58-60 | Hot and cold partition the experts, each in increasing order. |
| HotSplit.HotBeforeCold | campaign-2026-08/tailquant/split.py:42-58 | A hot expert has more hits than any cold one, or as many and a lower id. |
| HotSplit.HotWithoutHits | campaign-2026-08/tailquant/split.py:44-45 | Without hits the hot ones are the first ids, up to min_hot cut by max_hot. |
| HotSplit.CoverageIs | campaign-2026-08/tailquant/split.py:61-61 | The coverage is the hot set's share of all hits. |
| HotSplit.IndexErrorIff | campaign-2026-08/tailquant/split.py:44-45 | The planner fails exactly when a layer has no hits and min_hot, cut by max_hot as a slice bound, exceeds the number of experts. |
| HotSplit.LonelyExpertFails | campaign-2026-08/tailquant/split.py:44-45 | One such input: a single unused expert and the default bounds. |
| HotSplit.StopsLate | campaign-2026-08/tailquant/split.py:53-57 | The loop stops short of min_hot only at the end of the order, so the fill-up branch never adds anything. |
| HotSplit.PrefixIsBest | campaign-2026-08/tailquant/split.py:47-52 | Exchange: a prefix of the order has the most hits of any set no larger. |
| HotSplit.ChosenIsBest | campaign-2026-08/tailquant/split.py:47-57 | So has the set chosen before clamping. |
| HotSplit.ClampedIsBest | campaign-2026-08/tailquant/split.py:58-58 | And the one after clamping. |
| HotSplit.ChosenIsSmallest | campaign-2026-08/tailquant/split.py:51-52 | No smaller set that has min_hot experts reaches the target. |
| HotSplit.ChosenReaches | campaign-2026-08/tailquant/split.py:51-52 | The chosen set reaches any target share of at most one. |
| HotSplit.UncutCoverage | campaign-2026-08/tailquant/split.py:47-61 | So a plan that max_hot did not cut reports a coverage of at least the target. |
| HotSplit.NeverStops | campaign-2026-08/tailquant/split.py:51-52 | A target above one takes every expert. |
| HotSplit.UnusedHotIff | campaign-2026-08/tailquant/split.py:22-24 | For all arguments for which there is a plan: an expert without hits is hot exactly when min_hot (or, with hits and a target above one, the number of experts), cut by max_hot as a slice bound, exceeds the number of used experts. |
| BusySweep.SteadyBetween | benchmarks/profile/analyze_trace.py:28-35 | Between neighbouring start or end times either something runs throughout or nothing does, so the measure of the union is the length of the busy segments. |
| BusySweep.Busy | benchmarks/profile/analyze_trace.py:28-35 | The sweep returns the measure of the union of the intervals, over real times. |
| BusySweep.NothingOutside | benchmarks/profile/analyze_trace.py:25-26 | Nothing runs before the first start or after the last end. |
| BusySweep.BusyWithinWall | benchmarks/profile/analyze_trace.py:25-35 | Busy time is at most wall time, and equal exactly when there is no gap. |
| BusySweep.CutsExist | benchmarks/profile/analyze_trace.py:24-25 | Every trace has the cut points the measure is taken with. |
| BusySweep.DisjointSum | benchmarks/profile/analyze_trace.py:28-35 | Events that do not overlap are busy for the sum of their durations. |

## Left out

- Attention, projections, RoPE, RMSNorm, softmax and all float rounding outside the record formats.
- The other draft layers: one layer is modelled; the layers are updated alike and independently.
- The capture gate in `propose` that decides which steps are saved; every step is taken as captured.
- The training batch's random anchor choice, stream weights, minimum stream length and masks over labels; labels may come from the unverified tail.
- Timeouts, exceptions, the TCP control channel, device set-up and latency statistics of the doorbell probe; sequence numbers are unbounded.
- The four-rank probe's in-kernel check of expected sums, and the parity double buffer of its inputs: inputs are any function of rank and sequence.
- `FUSED_DCP_VERIFY` and the bf16/fp32 byte views of the fused gather: rows are sequences of any element type.
- A single rank or the fused gather switched off: no set is ever deferred then.
- The candidate packing and selection kernels of the top-k merge, whose sources are not part of this model; they appear as `PackLocal` and as the defining property of a top-k.
- The 432-byte record with bf16 RoPE, NaN and infinity, scales above the E4M3 range, CUDA-graph capture.
- The codeword arithmetic of `mcg_decode_w16`: its comment names a `lop3` with an exclusive or where the code uses an or, which does not matter for any table.
- Coverage rounding, gini and the projection numbers of the planner's report.
- Category buckets and per-step averages of the trace report.
- The rest of the cache manager, block pool and coordinator; only the hit length they are asked for is modelled.
- The RDMA all-gather prototype, metrics, replay drivers, patch scripts and configuration overlays: no comparable properties.
- PrepareInputs.KernelInstance: temperatures and seeds are carried as integers, since the kernel only copies them, and its loads read inputs no instance writes.
- Nvfp4Cache.WriteToKvCache: rows are written in batch order, where the indexed copy leaves the order of duplicate slots open; only slot 0 can be duplicated.
- RingLayer.DraftLayer.Propose: covers the ring branch only, and runs the mask update before the ingest that the draft model performs afterwards; the two touch different buffers.
- HotSplit.SplitLayer: coverage and target are exact reals instead of floats.
