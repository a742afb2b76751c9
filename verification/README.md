# Proofs about the Rust backend

This Dafny project models the stateful protocols, codecs and fast algorithms of the Rust backend
(`rust_backend/crates`) and proves what each of them is for. Each module has a plain definition of the
result and, in the form of the code, the loops, arrays and objects that reach it indirectly; the
proofs connect the two for all inputs, all runs and all interleavings.

- `Progress`, `ProgressEffects`, `ProgressRegistry`, `Mirror`: the sparse download-progress protocol. The
  registry hands out revisions, silent updates inside one set of bridge buckets get none, removed ids become
  tombstones, more than 512 of them are cut at the median and the `reset` watermark rises. A client that polls
  with a cursor converges to the registry's view up to bridge equality, in every run; `ProgressEffects` says how far apart
  items can be that are equal in this sense, and what each operation does to items, tombstones and revisions.
- `Palette`, `Wu`, `Cuts`, `Quantizer`: the Wu colour quantizer, from the in-place summed-volume table over
  inclusion-exclusion and the cutting loop, which yields one colour per occupied histogram bin up to 128, to
  the seeding of the clusters.
- `Matching`: the one-row edit distance after stripping and swapping equals the distance of the full strings,
  and the score is measured by the cheapest edit script.
- `BlockModes`, `BlockTransform`, `FileTransform`: CBC and CTR in place over an abstract block permutation,
  PKCS7 padding, and the patterned file transform, which does not depend on buffer size or short reads.
- `Cancellation`, `DataJobs`: reference-counted leases that share a flag with their entry, idle sentinels,
  retry, shutdown, and the host's count of active data jobs.
- `SignatureFormat`, `SignatureEncoder`: the audio signature container, its encoder, and the pass numbers of
  the generator.
- `CastProto`: varints, fields and frames of Cast messages.
- `Isrc`, `IsrcWriter`: the seeking ISRC scan of FLAC files against a reference that parses everything, and
  the reference against an independent writer of such files.
- `Surrogates`, `JsonText`: the repair of unpaired surrogate escapes in JSON, and an independent writer of
  JSON text that says which bytes are escapes.
- `Pool`: the worker pool as atomic steps under its mutex.
- `Auth`, `AuthRegistry`: ownership of callback states, aliases and journal failures.
- `CueLines`: the line scanner of CUE sheets.
- `Common`: `Option`, `Result` and bytes.

Code that changes state in place is a class or a method on arrays here, with a contract that ties the new
state to a function of the old one; the lemmas are about that function. `dafny verify dfyconfig.toml` covers
the whole project.

Some promises hold only under a condition, which is proved exact. An answered poll converges, and one is
answered if and only if something changed and all changed items are finite (`Mirror.OnePollSuffices`, with a
run that reaches the bad case in `Mirror.NonFiniteSilences`): an item JSON cannot express silences every delta
that would carry it. When the owner of a callback state goes, the state resolves for its heir if and only if
the first unexpired alias in map order does not lie in the future (`Auth.HeirResolves`); otherwise a fresh
alias is passed over (`AuthRegistry.FutureAliasTakesOver`). A failed thread creation leaves queued jobs
without a thread of their own if and only if nobody waits and no coming thread is to spare
(`Pool.FailureDecides`, `Pool.NoJobWaitsBehindBusy`). The patterned transform rejects exactly the files of
`FileTransform.OutcomeFails`. `finish_data_job` keeps the counts right exactly for a lease's first call under
its own id, or for a released lease while the id is inactive (`DataJobs.Backend.FinishDataJob`). The length
prefix of a Cast frame is right exactly below 2^32 bytes (`CastProto.FramePrefix`).

The quantizer takes the score of a cut and the variance of a box as arbitrary functions of the sums they are
computed from, so that its results hold for rounded quotients too. Only the number of colours asks something
of them: that scores from 1 on and variances of at least the inverse of the weight stay positive. Double
precision does that for images of at most 112 x 112 pixels, whose sums it represents exactly
(`Cuts.RoundedKeepsSigns`, `Quantizer.Quantize`).

Where a comment and the code differ the code is followed: the comment on `download_loop` (events.rs:135) lets
the next wait resume after the highest sequence seen, while the code also lowers the cursor on a reset.

## Model

| member | source | states |
|---|---|---|
| `Progress.ApplyEdit` | rust_backend/crates/core/src/progress.rs:232-305 | none of the seven public updates touches an item's id or its revision, so only `update` itself can publish one |
| `Progress.KthHasRank` | rust_backend/crates/core/src/progress.rs:323-325 | the value at index k of the sorted revisions has exactly k smaller and n-k-1 larger revisions beside it |
| `Progress.PruneKeepsNewestHalf` | rust_backend/crates/core/src/progress.rs:322-328 | the median cut of 513 tombstones keeps exactly 256, all of them newer than every dropped one; the cut itself is dropped and the watermark covers it |
| `Progress.StartKeepsValid` | rust_backend/crates/core/src/progress.rs:192-212 | starting an id, new, live or removed, keeps revisions distinct and tombstones apart from items |
| `Progress.ReplaceKeepsValid` | rust_backend/crates/core/src/progress.rs:214-230 | an edit keeps every registry invariant, whether it changes the bridge buckets or not |
| `Progress.SilentKeepsValid` | rust_backend/crates/core/src/progress.rs:222-227 | an edit inside one set of buckets gets no revision and may leave the snapshot cache: the cached items still show the same buckets |
| `Progress.RemoveKeepsValid` | rust_backend/crates/core/src/progress.rs:318-333 | removing an id, pruning included, keeps the invariants and never lowers the watermark |
| `Progress.RemoveManyKeepsValid` | rust_backend/crates/core/src/progress.rs:311-339 | the same for a whole batch of removals |
| `Progress.StepKeepsValid` | rust_backend/crates/core/src/progress.rs:192-392 | every operation keeps: distinct revisions in (0, seq], tombstones in (reset, seq], disjoint from items and at most 512, clean cache bridge-equal to the items; `reset` and `seq` never decrease |
| `Progress.ReachableValid` | rust_backend/crates/core/src/progress.rs:192-392 | all of that holds after every sequence of operations |
| `ProgressRegistry.MiddleIsCutoff` | rust_backend/crates/core/src/progress.rs:323-325 | index len/2 of the increasing list of all tombstone revisions is the revision with exactly len/2 older ones |
| `ProgressRegistry.SortedRevisions` | rust_backend/crates/core/src/progress.rs:323-324 | collecting and sorting the revisions gives a strictly increasing list of exactly those revisions |
| `ProgressRegistry.ProgressRegistry.Advance` | rust_backend/crates/core/src/progress.rs:126-130 | the next revision is one above the last, and the cache is stale |
| `ProgressRegistry.ProgressRegistry.Start` | rust_backend/crates/core/src/progress.rs:192-212 | refines the transition of `Progress.Step`, an error exactly when closed; the id is live, blank and at the next revision, its tombstone is gone, every other item and tombstone stays |
| `ProgressRegistry.ProgressRegistry.Update` | rust_backend/crates/core/src/progress.rs:214-230 | refines the transition: an edit that moves no whole percent, tenth of speed, stretch of 128 KiB or other field gets no revision, any other the next one; an unknown id changes nothing |
| `ProgressRegistry.ProgressRegistry.RemoveMany` | rust_backend/crates/core/src/progress.rs:311-339 | the loop refines the iterated removal: exactly the named items are gone, the live ones used up one revision each, and their tombstones have these or lie at or below the watermark |
| `ProgressRegistry.ProgressRegistry.PruneTombstones` | rust_backend/crates/core/src/progress.rs:322-328 | sort, take the middle, retain: the same state as the order-statistic definition of the prune |
| `ProgressRegistry.ProgressRegistry.Snapshot` | rust_backend/crates/core/src/progress.rs:351-369 | a clean or expressible registry answers with items bridge-equal to the live ones; a stale one holding a non-finite item answers with the empty document and stays stale |
| `ProgressRegistry.ProgressRegistry.Close` | rust_backend/crates/core/src/progress.rs:384-391 | shutdown empties the registry for good |
| `ProgressEffects.BridgeMeaning` | rust_backend/crates/core/src/progress.rs:43-64 | two items have equal bridge states exactly if received bytes lie in one stretch of 128 KiB (the one around zero reaching to both sides), shown progress rounds to one percent, speed to one tenth or both overflow, and total, status, stage and flag are equal |
| `ProgressEffects.AlikeClose` | rust_backend/crates/core/src/progress.rs:43-64 | such items are less than 128 KiB apart (256 KiB across zero), less than 0.01 in progress clamped to [0, 1] and less than 0.1 in speed |
| `ProgressEffects.EqualViewsClose` | rust_backend/crates/core/src/progress.rs:43-64 | equal views have the same ids, and items no further apart than that |
| `ProgressEffects.EditEffects` | rust_backend/crates/core/src/progress.rs:232-305 | which fields each of the seven updates writes, what it puts there, and that it writes no others |
| `ProgressEffects.StartEffect` | rust_backend/crates/core/src/progress.rs:192-212 | after a start the id is live, blank and at the next revision; no other item or tombstone changes |
| `ProgressEffects.UpdateEffect` | rust_backend/crates/core/src/progress.rs:214-230 | an edit gets the next revision exactly if old and new item do not look alike; the new item is kept either way, and nothing else changes |
| `ProgressEffects.FarEditPublishes` | rust_backend/crates/core/src/progress.rs:222-227 | an edit that moves an item further than these bounds always gets the next revision |
| `ProgressEffects.PruneEffect` | rust_backend/crates/core/src/progress.rs:322-328 | a prune touches only tombstones and watermark, drops none above the new watermark, and does nothing up to 512 |
| `ProgressEffects.RemoveManyEffect` | rust_backend/crates/core/src/progress.rs:311-339 | a batch takes away exactly the named items; the sequence rises by the number of distinct live names; the i-th of them leaves a tombstone of the i-th new revision, or one at or below the watermark; the others stay or lie there, and the watermark moves only past 512 |
| `ProgressEffects.DeltaContents` | rust_backend/crates/core/src/progress.rs:132-173 | there is no answer exactly without news or with a changed item that is not finite; an answer carries exactly the items changed since the cursor and, without a reset, exactly the ids removed since |
| `ProgressEffects.UntouchedStep` | rust_backend/crates/core/src/progress.rs:192-369 | an operation that does not start an id, name it in a removal or edit it visibly leaves nothing newer of it behind |
| `ProgressEffects.DeltaSparse` | rust_backend/crates/core/src/progress.rs:132-173 | deltas are sparse: in every run, an answer without a reset mentions no id that nothing touched since the cursor |
| `Mirror.DownloadLoop.OnPayload` | rust_backend/crates/desktop/src/events.rs:159-187 | an empty payload and a repetition leave the client alone; any other moves the cursor (down only on a reset), is applied, and is emitted |
| `Mirror.DownloadLoop.OnError` | rust_backend/crates/desktop/src/events.rs:188-202 | after an error the next poll starts from cursor 0 and nothing counts as a repetition, while the copy stays |
| `Mirror.PatchedIds` | rust_backend/crates/core/src/progress.rs:132-173 | a delta upserted and dropped onto a synced copy gives exactly the live ids |
| `Mirror.PatchedItem` | rust_backend/crates/core/src/progress.rs:147-165 | each live item of the patched copy is the published live one if it changed since the cursor and the old copy otherwise |
| `Mirror.AnswerConverges` | rust_backend/crates/core/src/progress.rs:132-173 | applying `delta(cursor)`, reset or patch, to a synced copy yields exactly the server's ids with bridge-equal items |
| `Mirror.CaughtUpViews` | rust_backend/crates/core/src/progress.rs:132-135 | a synced copy at the last revision already shows the server's view, so the empty answer loses nothing |
| `Mirror.PruneKeepsSynced` | rust_backend/crates/core/src/progress.rs:322-328 | a prune breaks no copy whose cursor is at or after the watermark |
| `Mirror.StepKeepsSynced` | rust_backend/crates/core/src/progress.rs:192-392 | a copy synced at a cursor stays synced at it whatever the registry does next, prunes and silent edits included |
| `Mirror.AfterValid` | rust_backend/crates/desktop/src/events.rs:136-208 | in every run of registry operations, polls, deliveries and failures the copy stays synced at its cursor and a payload under way will leave it synced |
| `Mirror.DeliveryConverges` | rust_backend/crates/desktop/src/events.rs:159-187 | mirror convergence: in every run, a delivered payload is never mistaken for a repetition and leaves the copy with exactly the ids and bridge states the registry had when it answered, each item within the bounds of `ProgressEffects.Close` |
| `Mirror.CaughtUpMeansEqual` | rust_backend/crates/desktop/src/events.rs:176-183 | in every run, a cursor equal to the registry's sequence means a copy with the same ids and bridge states, each item within the same bounds of the live one |
| `Mirror.OnePollSuffices` | rust_backend/crates/core/src/progress/subscription.rs:22-48 | from every reachable point a poll is answered exactly if something changed since the cursor and all changed items are finite; delivered at once it leaves the copy right exactly if they are finite or the copy was right before |
| `Mirror.NonFiniteSilences` | rust_backend/crates/core/src/progress.rs:152-156 | a two-step run after which no poll is ever answered although the copy differs: progress that is not a number |
| `Matching.NoScriptIsCheaper` | rust_backend/crates/core/src/matching.rs:122-137 | no way of editing one string into the other by keeping, replacing, deleting and adding bytes costs less than the recursive distance |
| `Matching.CheapestScript` | rust_backend/crates/core/src/matching.rs:122-137 | some edit script costs exactly the distance, so the recursion is the minimum |
| `Matching.DistanceBounds` | rust_backend/crates/core/src/matching.rs:138 | the distance lies between the difference of the lengths and the longer length |
| `Matching.Symmetric` | rust_backend/crates/core/src/matching.rs:119-121 | swapping the arguments is harmless |
| `Matching.CommonPrefix` | rust_backend/crates/core/src/matching.rs:108-110 | a common prefix never changes the distance |
| `Matching.CommonSuffix` | rust_backend/crates/core/src/matching.rs:111-118 | neither does a common suffix |
| `Matching.ZeroMeansEqual` | rust_backend/crates/core/src/matching.rs:99-101 | distance zero exactly for equal strings |
| `Matching.ScoreLaws` | rust_backend/crates/core/src/matching.rs:91-139 | the score lies in [0, 1], is symmetric, and is 1 exactly for equal strings |
| `Matching.ScoreMeasures` | rust_backend/crates/core/src/matching.rs:91-139 | one minus the score, times the longer length, is at most the cost of every edit script from the one string to the other, and equals that of some script |
| `Matching.RowStep` | rust_backend/crates/core/src/matching.rs:127-136 | three neighbouring cells of the distance matrix determine the next one |
| `Matching.PrefixLength` | rust_backend/crates/core/src/matching.rs:108 | the common prefix is the longest one |
| `Matching.SuffixLength` | rust_backend/crates/core/src/matching.rs:111-116 | the common suffix is the longest one |
| `Matching.LastRow` | rust_backend/crates/core/src/matching.rs:122-137 | the one row, overwritten in place with a saved diagonal, ends as the last row of the full distance matrix |
| `Matching.Strip` | rust_backend/crates/core/src/matching.rs:106-121 | stripping both ends and swapping keeps the distance and puts the longer string first |
| `Matching.CompareStrings` | rust_backend/crates/core/src/matching.rs:99-138 | the fast form computes the score of the full strings, whatever was stripped or swapped: the share of the longer length that the cheapest edit script leaves |
| `Palette.SplitWeighs` | rust_backend/crates/core/src/native_palette.rs:201-214 | cutting a box splits its weight, moments and squares exactly |
| `Palette.BoxSums` | rust_backend/crates/core/src/native_palette.rs:67-95 | weight, moments and squares of a box are the sums over the opaque pixels whose channels, divided by eight, lie in it |
| `Palette.WeighBounds` | rust_backend/crates/core/src/native_palette.rs:77-93 | the moment of a box is between 8*low and 8*high-1 per unit of weight in every channel |
| `Palette.CutKeepsPartition` | rust_backend/crates/core/src/native_palette.rs:137-139 | replacing a box by its two halves keeps an exact partition of the colour space |
| `Palette.CutKeepsTotal` | rust_backend/crates/core/src/native_palette.rs:137-139 | and the total weight |
| `Palette.MeanInside` | rust_backend/crates/core/src/native_palette.rs:170-176 | the rounded mean of a box lies in [8*low, 8*high-1] in every channel |
| `Palette.QuotientNearest` | rust_backend/crates/core/src/native_palette.rs:170-176 | the rounded mean is the nearest integer to the quotient, the greater of two |
| `Palette.MeansDiffer` | rust_backend/crates/core/src/native_palette.rs:177-180 | disjoint boxes with pixels never have the same rounded mean, so the duplicate filter drops nothing |
| `Palette.NoMoreCubesThanSamples` | rust_backend/crates/core/src/native_palette.rs:335-338 | there are never more disjoint boxes with pixels than distinct colours |
| `Palette.CoveredCount` | rust_backend/crates/core/src/native_palette.rs:168-183 | disjoint boxes with pixels cover at least one occupied histogram bin each, and exactly as many bins as boxes if none holds two |
| `Palette.PartitionCovers` | rust_backend/crates/core/src/native_palette.rs:82-87 | the boxes of a partition own the bin of every opaque pixel |
| `Palette.OccupiedWeighs` | rust_backend/crates/core/src/native_palette.rs:82-87 | a box holding the bin of an opaque pixel has a positive weight |
| `Palette.WeighsAtMost` | rust_backend/crates/core/src/native_palette.rs:73-93 | no box weighs more than the image has pixels |
| `Wu.Table.constructor` | rust_backend/crates/core/src/native_palette.rs:67-95 | after the accumulation loop every cell weighs exactly the opaque pixels of its bin |
| `Wu.Table.Prefix` | rust_backend/crates/core/src/native_palette.rs:97-127 | the in-place pass turns the histogram into the table of all pixels at or below each cell |
| `Wu.Table.PrefixPlane` | rust_backend/crates/core/src/native_palette.rs:98-124 | one plane of the pass leaves the planes behind it summed and those ahead untouched |
| `Wu.Table.PrefixLine` | rust_backend/crates/core/src/native_palette.rs:102-123 | one line extends the summed part by a line and the running areas to its slab |
| `Wu.Table.PrefixCell` | rust_backend/crates/core/src/native_palette.rs:105-122 | one cell: the line, the area and the entry are the row, slab and corner sums of the original histogram |
| `Wu.Table.Accumulate` | rust_backend/crates/core/src/native_palette.rs:106-122 | the three additions of the innermost body, in their order and in place |
| `Wu.InclusionExclusion` | rust_backend/crates/core/src/native_palette.rs:245-254 | the alternating sum over the eight corners of a box is the sum over exactly the cells low < i <= high |
| `Wu.VolumeWeighs` | rust_backend/crates/core/src/native_palette.rs:245-265 | reading a box from the finished table gives the weight, moments and squares of the original pixels in it |
| `Cuts.PartsAreHalves` | rust_backend/crates/core/src/native_palette.rs:233-241 | a plane with pixels on both sides cuts a box into two disjoint proper halves of positive weight |
| `Cuts.SoundWeigh` | rust_backend/crates/core/src/native_palette.rs:186-191 | in every box the squares times the weight reach the squared moment: no set of pixels has a negative variance |
| `Cuts.VarianceIsScatter` | rust_backend/crates/core/src/native_palette.rs:186-191 | the variance of a box is the sum of squared distances of its pixels from their mean |
| `Cuts.CutSpreads` | rust_backend/crates/core/src/native_palette.rs:186-191 | a box with pixels on both sides of a plane varies: its parts have different means on the axis |
| `Cuts.CandidateScore` | rust_backend/crates/core/src/native_palette.rs:211-221 | every plane with pixels on both sides has an exact score of at least 1 |
| `Cuts.ScoreIsGain` | rust_backend/crates/core/src/native_palette.rs:211-221 | the score of a plane is the squares of the box less the variances of both parts |
| `Cuts.CandidateVariance` | rust_backend/crates/core/src/native_palette.rs:186-191 | and its box an exact variance of at least the inverse of its weight |
| `Cuts.FinishedUncuttable` | rust_backend/crates/core/src/native_palette.rs:150-165 | a box filed under no positive variance, or with no plane of positive score, has no plane with pixels on both sides at all, for every measure that keeps these signs |
| `Cuts.UncuttableHoldsOne` | rust_backend/crates/core/src/native_palette.rs:202-213 | a box without such a plane holds one occupied bin at most |
| `Cuts.ExactKeepsSigns` | rust_backend/crates/core/src/native_palette.rs:186-221 | exact arithmetic is such a measure |
| `Cuts.RoundedKeepsSigns` | rust_backend/crates/core/src/native_palette.rs:186-221 | so is every measure with the error bounds of double precision, for images of at most 112 x 112 pixels: no rounding turns a score or variance that matters to zero |
| `Cuts.ExactRounded` | rust_backend/crates/core/src/native_palette.rs:186-221 | exact arithmetic is within the error bounds of double precision |
| `Quantizer.ScoreAt` | rust_backend/crates/core/src/native_palette.rs:202-220 | a plane gets a score exactly when both sides hold pixels, and it is the measure's score of the two original sums, for any measure |
| `Quantizer.BestOnAxis` | rust_backend/crates/core/src/native_palette.rs:201-225 | the scan of an axis returns the first plane of greatest positive score, or none if no plane has one, for any measure |
| `Quantizer.Cut` | rust_backend/crates/core/src/native_palette.rs:193-242 | a cut is taken at the first plane, red before green before blue, that no other beats; no cut means no plane has a positive score; for any measure |
| `Quantizer.Widest` | rust_backend/crates/core/src/native_palette.rs:154-161 | the next box is the first of greatest filed variance among those in use |
| `Quantizer.FileParts` | rust_backend/crates/core/src/native_palette.rs:137-149 | the parts take the box's place and the end of the list, each filed under its own variance or zero |
| `Quantizer.Round` | rust_backend/crates/core/src/native_palette.rs:135-153 | a round on a box is the cut at its best plane or its filing under zero, whatever the measure |
| `Quantizer.StepKeepsBoxes` | rust_backend/crates/core/src/native_palette.rs:137-153 | with any measure, a round keeps a partition that carries all opaque pixels in non-empty boxes, and files them right |
| `Quantizer.RunKeepsBoxes` | rust_backend/crates/core/src/native_palette.rs:135-167 | so does every run of rounds from the uncut space |
| `Quantizer.EndsUncuttable` | rust_backend/crates/core/src/native_palette.rs:162-165 | a run that ends short of 128 boxes leaves none that any plane could cut |
| `Quantizer.CountAfterReset` | rust_backend/crates/core/src/native_palette.rs:150-153 | a failed cut lowers the number of positive variances, which makes the loop end although its index goes down |
| `Quantizer.CutLoop` | rust_backend/crates/core/src/native_palette.rs:131-167 | for any scores and variances the loop ends, and its boxes are those of the run that always cuts the first widest box at its best plane; they partition the colour space and each hold pixels; fewer than 128 only if no plane of any box has pixels on both sides, when signs are kept |
| `Quantizer.TotalAtLeast` | rust_backend/crates/core/src/native_palette.rs:169-171 | no box weighs more than all boxes together, so an image without opaque pixels gives no colour |
| `Quantizer.Means` | rust_backend/crates/core/src/native_palette.rs:168-183 | one mean per box: neither the weight filter nor the duplicate filter drops any |
| `Quantizer.MeansDistinct` | rust_backend/crates/core/src/native_palette.rs:177-180 | the colours handed on are pairwise distinct |
| `Quantizer.BoxCount` | rust_backend/crates/core/src/native_palette.rs:129-167 | a partition into non-empty boxes that is full or cannot be cut further has min(128, occupied bins) boxes |
| `Quantizer.Quantize` | rust_backend/crates/core/src/native_palette.rs:129-184 | the starting colours are the means of the boxes of that run, one each; in double precision and on at most 112 x 112 pixels their number is exactly min(128, occupied histogram bins), zero without opaque pixels |
| `Quantizer.Seed` | rust_backend/crates/core/src/native_palette.rs:337-348 | the random points are the first distinct draws, as many as clusters are missing; the draws run out exactly if they have fewer distinct values |
| `Quantizer.StartsFit` | rust_backend/crates/core/src/native_palette.rs:336-341 | starting colours are pairwise distinct and at most min(128, colours), so the number of missing clusters cannot underflow |
| `Quantizer.Clusters` | rust_backend/crates/core/src/native_palette.rs:335-348 | from pixels to clusters: the palette of the image, then the first distinct draws, min(128, colours) in all, unless the draws have too few values |
| `BlockModes.ValueEncode` | rust_backend/crates/extensions/src/crypto.rs:103-108 | n counter bytes hold a number modulo 256^n |
| `BlockModes.EncodeValue` | rust_backend/crates/extensions/src/crypto.rs:103-108 | and every n bytes are the encoding of their number |
| `BlockModes.XorBlockBits` | rust_backend/crates/extensions/src/crypto.rs:100-120 | a masked byte has exactly the bits that are in one of byte and mask |
| `BlockModes.NextCounter` | rust_backend/crates/extensions/src/crypto.rs:103-108 | the carry loop adds one modulo 256^n (NIST SP 800-38A, appendix B.1) |
| `BlockModes.CounterAdds` | rust_backend/crates/extensions/src/crypto.rs:103-108 | counting on from a counter is adding to it |
| `BlockModes.CtrTwice` | rust_backend/crates/extensions/src/crypto.rs:97-108 | CTR undoes itself, for every length |
| `BlockModes.CtrSplits` | rust_backend/crates/extensions/src/crypto.rs:93-108 | CTR of a + b is CTR of a, then CTR of b with the counter moved on by the blocks of a |
| `BlockModes.CbcDecryptsEncrypted` | rust_backend/crates/extensions/src/crypto.rs:109-124 | CBC decryption inverts encryption (NIST SP 800-38A, section 6.2) |
| `BlockModes.CbcEncryptsDecrypted` | rust_backend/crates/extensions/src/crypto.rs:109-124 | and encryption inverts decryption |
| `BlockModes.CbcEncryptNext` | rust_backend/crates/extensions/src/crypto.rs:117-124 | appending a block to the plaintext appends one block chained to the last enciphered one |
| `BlockModes.CbcDecryptNext` | rust_backend/crates/extensions/src/crypto.rs:109-116 | appending a block to the ciphertext appends one block chained to the previous one |
| `BlockModes.UnpadInvertsPad` | rust_backend/crates/extensions/src/crypto.rs:129-150 | `unpad` accepts exactly the padded strings and returns what was padded (RFC 5652, section 6.3), for counts that fit a byte |
| `BlockModes.PadIs` | rust_backend/crates/extensions/src/crypto.rs:129-132 | for blocks of at most 255 bytes, padding adds one byte or more up to the next whole block, each of them the number of bytes added |
| `BlockTransform.TransformedBack` | rust_backend/crates/extensions/src/crypto.rs:84-127 | running a mode with the opposite direction restores the data |
| `BlockTransform.OutputNext` | rust_backend/crates/extensions/src/crypto.rs:93-124 | a chunk transformed under the loop's state continues the mode's defining formula |
| `BlockTransform.StateNext` | rust_backend/crates/extensions/src/crypto.rs:103-124 | the loop's next state is the next counter or chaining block of that formula |
| `BlockTransform.IncrementInPlace` | rust_backend/crates/extensions/src/crypto.rs:103-108 | the in-place carry loop, last byte first with early exit, is the increment of the counter |
| `BlockTransform.CtrChunk` | rust_backend/crates/extensions/src/crypto.rs:97-108 | the CTR branch in place: masked by the encrypted counter, which then moves on |
| `BlockTransform.CbcDecryptChunk` | rust_backend/crates/extensions/src/crypto.rs:109-116 | the decryption branch in place: the block as it was before becomes the state |
| `BlockTransform.CbcEncryptChunk` | rust_backend/crates/extensions/src/crypto.rs:117-124 | the encryption branch in place: the new block becomes the state |
| `BlockTransform.Transform` | rust_backend/crates/extensions/src/crypto.rs:84-127 | the in-place loop refines the mode on its range and leaves every other byte alone |
| `BlockTransform.TransformChecked` | rust_backend/crates/extensions/src/crypto.rs:57-82 | the three errors in their order; a rejected call changes nothing; an accepted one applies the mode to all data |
| `FileTransform.OutcomeAt` | rust_backend/crates/extensions/src/file_transform.rs:108-123 | output segment k is the input segment transformed under a fresh IV if (index + k) mod `every` is `offset` and it is full or partial ones are allowed, and the input segment otherwise |
| `FileTransform.OutcomeCount` | rust_backend/crates/extensions/src/file_transform.rs:108-123 | the count of transformed segments is the number of k below the segment count with that property |
| `FileTransform.OutcomeSizes` | rust_backend/crates/extensions/src/file_transform.rs:101-126 | the output is as long as the input, and the segment count is that length over the segment size, rounded up |
| `FileTransform.OutcomeBack` | rust_backend/crates/extensions/src/file_transform.rs:108-123 | for every file that does not fail by its length and options, the opposite operation with the same options restores it |
| `FileTransform.OutcomeFails` | rust_backend/crates/extensions/src/file_transform.rs:111-117 | the transform fails exactly for CBC with partial segments allowed, a length that is no whole number of blocks, and a last segment on the pattern; the index reported is that of the last segment |
| `FileTransform.BufferSize` | rust_backend/crates/extensions/src/file_transform.rs:60-61 | the clamped buffer holds at least one and only whole segments |
| `FileTransform.BufferLargest` | rust_backend/crates/extensions/src/file_transform.rs:60-61 | no larger buffer of whole segments fits the request and the limit |
| `FileTransform.ReadChunk` | rust_backend/crates/extensions/src/file_host.rs:277-294 | for every pattern of short and interrupted reads: the next bytes of the file, and fewer than asked only at its end |
| `FileTransform.WriteChunks` | rust_backend/crates/extensions/src/file_host.rs:296-306 | the pieces written are the bytes, in order |
| `FileTransform.Segment` | rust_backend/crates/extensions/src/file_transform.rs:109-121 | one segment in place: transformed, copied, or reported as misaligned |
| `FileTransform.Chunk` | rust_backend/crates/extensions/src/file_transform.rs:108-123 | one buffer: its segments continue those already written, and the running counts are exact |
| `FileTransform.Stream` | rust_backend/crates/extensions/src/file_transform.rs:100-145 | buffer independence: bytes, counts and the index of a misaligned segment are those of the unbuffered meaning |
| `FileTransform.TransformFile` | rust_backend/crates/extensions/src/file_transform.rs:49-145 | the option errors in their order, then for every requested buffer size and read pattern: the misaligned segment, or length, counts and each output segment by that arithmetic condition |
| `Cancellation.CancelledManyIs` | rust_backend/crates/core/src/cancellation.rs:147-155 | a batch of cancellations marks exactly the named ids, creating idle sentinels for unknown ones, and no count changes |
| `Cancellation.ResetManyIs` | rust_backend/crates/core/src/cancellation.rs:201-209 | a reset removes exactly the named idle sentinels |
| `Cancellation.AcquiredTimesIs` | rust_backend/crates/core/src/cancellation.rs:123-125 | repeated acquisition counts every lease |
| `Cancellation.ReleasedTimesIs` | rust_backend/crates/core/src/cancellation.rs:327-331 | releasing counts down to the removal of the entry |
| `Cancellation.RetryStartsClean` | rust_backend/crates/core/src/cancellation.rs:117-134 | a retry after all leases of a cancelled attempt were released is not cancelled; before that it is |
| `Cancellation.WithLeaseValid` | rust_backend/crates/core/src/cancellation.rs:120-126 | an acquired lease shares its entry's flag and is counted in it |
| `Cancellation.WithCancelValid` | rust_backend/crates/core/src/cancellation.rs:148-153 | a cancellation is seen by every unreleased lease of the id and by no other |
| `Cancellation.WithReleaseValid` | rust_backend/crates/core/src/cancellation.rs:322-335 | in an open registry the count of a lease about to be released is positive: no underflow |
| `Cancellation.WithoutIdle` | rust_backend/crates/core/src/cancellation.rs:202-208 | dropping an idle sentinel orphans no lease |
| `Cancellation.CancellationRegistry.Acquire` | rust_backend/crates/core/src/cancellation.rs:117-134 | a cancellation before the acquisition is seen by the new lease; flags are shared per id, ids without text get one of their own |
| `Cancellation.CancellationRegistry.CancelMany` | rust_backend/crates/core/src/cancellation.rs:140-161 | the loop refines the batch on the heap of shared flags; an error exactly when closed |
| `Cancellation.CancellationRegistry.CancelActive` | rust_backend/crates/core/src/cancellation.rs:165-178 | cancels and reports exactly the ids with leases; sentinels stay as they are |
| `Cancellation.CancellationRegistry.IsCancelled` | rust_backend/crates/core/src/cancellation.rs:180-187 | the answer for an id, unknown ones included |
| `Cancellation.CancellationRegistry.ResetManyIfIdle` | rust_backend/crates/core/src/cancellation.rs:195-211 | the loop refines the batch; leases and flags stay |
| `Cancellation.CancellationRegistry.Release` | rust_backend/crates/core/src/cancellation.rs:322-335 | the first release counts the lease out, every later one changes nothing, so a stale lease cannot touch a retry |
| `Cancellation.CancellationRegistry.LeaseCancelled` | rust_backend/crates/core/src/cancellation.rs:267-279 | closed, released and cancelled, in this order; a live lease answers as its id does |
| `Cancellation.CancellationRegistry.Shutdown` | rust_backend/crates/core/src/cancellation.rs:214-220 | all entries go at once and the registry stays closed; the accounting of open registries ends |
| `DataJobs.Backend.AcquireDataJob` | rust_backend/crates/desktop/src/backend.rs:554-559 | a job acquired while none with its id is active never starts cancelled |
| `DataJobs.Backend.FinishDataJob` | rust_backend/crates/desktop/src/backend.rs:561-570 | the host's count and the registry's stay the number of unfinished jobs exactly if the lease is finished once and under its own id, or again while that id has no active job |
| `DataJobs.Backend.CancelDataJob` | rust_backend/crates/desktop/src/backend.rs:572-578 | a cancellation for an inactive id leaves no trace |
| `SignatureFormat.PeaksRoundTrip` | rust_backend/crates/core/src/music_signature.rs:125-143 | a reader of pass deltas recovers every band whose passes do not decrease, absolute-pass escapes included |
| `SignatureFormat.PeaksSize` | rust_backend/crates/core/src/music_signature.rs:128-143 | five bytes a peak and at most five more |
| `SignatureFormat.ContentsRoundTrip` | rust_backend/crates/core/src/music_signature.rs:83-93 | a reader of tag, size, payload and padding recovers all four bands, omitted ones as empty |
| `SignatureFormat.RoundTrip` | rust_backend/crates/core/src/music_signature.rs:82-115 | a reader that insists on every constant, both size fields and the CRC recovers sample count and bands |
| `SignatureFormat.PeakLayout` | rust_backend/crates/core/src/music_signature.rs:125-143 | a peak byte by byte: pass delta, magnitude and bin, least significant byte first; from 255 passes on an absolute pass comes before it |
| `SignatureFormat.EntryLayout` | rust_backend/crates/core/src/music_signature.rs:83-93 | an entry byte by byte: tag with the band, payload length, payload, zeros up to a multiple of four |
| `SignatureFormat.Layout` | rust_backend/crates/core/src/music_signature.rs:94-115 | the header byte by byte: constants, both size fields, sample count, and the CRC of everything behind it |
| `SignatureFormat.CrcCheckValue` | rust_backend/crates/core/src/music_signature.rs:150-160 | the CRC of the digits 1 to 9 is the check value of the zlib CRC, CBF43926 |
| `SignatureEncoder.EncodePeaks` | rust_backend/crates/core/src/music_signature.rs:128-143 | the loop with its running pass writes the format |
| `SignatureEncoder.PushBand` | rust_backend/crates/core/src/music_signature.rs:84-93 | an entry is appended with its padding and keeps the list a multiple of four bytes long |
| `SignatureEncoder.EncodeContents` | rust_backend/crates/core/src/music_signature.rs:83-93 | the loop over the bands writes the list of entries, skipping empty bands |
| `SignatureEncoder.Encode` | rust_backend/crates/core/src/music_signature.rs:82-115 | building the container and patching the CRC into bytes 4..8 gives the format |
| `SignatureEncoder.Generator.PushHop` | rust_backend/crates/core/src/music_signature.rs:233-246 | the n-th hop files its peaks under pass n-46 in their bands, behind all earlier ones; the first 45 file none |
| `SignatureEncoder.Generator.FindPeaks` | rust_backend/crates/core/src/music_signature.rs:278-321 | each found peak goes to the end of its own band with the current pass |
| `SignatureEncoder.BandedNext` | rust_backend/crates/core/src/music_signature.rs:282-319 | bands stay in pass order from hop to hop |
| `SignatureEncoder.BandedFits` | rust_backend/crates/core/src/music_signature.rs:94-106 | no recording the generator accepts can overflow a size field |
| `SignatureEncoder.Fingerprint` | rust_backend/crates/core/src/music_signature.rs:176-188 | for every recording, the container decodes to exactly the peaks found, band by band and hop by hop |
| `SignatureEncoder.EachPeakOnce` | rust_backend/crates/core/src/music_signature.rs:278-321 | the peaks of a pass in a band are the found ones of that band, each once and in order, with that pass |
| `SignatureEncoder.RunPeaks` | rust_backend/crates/core/src/music_signature.rs:233-321 | over a run a band holds the peaks found from the 46th hop on, each once and in order, numbered by their hop less 45 |
| `CastProto.VarintRoundTrip` | rust_backend/crates/cast/src/proto.rs:99-118 | every u64 is read back in front of any bytes, and exactly its own bytes are consumed |
| `CastProto.VarintShape` | rust_backend/crates/cast/src/proto.rs:99-105 | a varint is its groups of seven bits, least significant first, a flag on all but the last, and no idle group |
| `CastProto.VarintMeaning` | rust_backend/crates/cast/src/proto.rs:107-118 | up to ten groups of seven bits are read, idle ones too, as their number modulo 2^64 |
| `CastProto.VarintUnended` | rust_backend/crates/cast/src/proto.rs:107-118 | bytes without a last group within ten are no number |
| `CastProto.ReadVarintAppend` | rust_backend/crates/cast/src/proto.rs:107-118 | a varint that is read is read the same with more bytes behind it |
| `CastProto.DecodeAppend` | rust_backend/crates/cast/src/proto.rs:62-90 | decoding a + b is decoding b into what a gave |
| `CastProto.DecodeEncoded` | rust_backend/crates/cast/src/proto.rs:47-90 | decoding the body of an encoded message gives the message, for every message |
| `CastProto.BodyFields` | rust_backend/crates/cast/src/proto.rs:47-54 | a body is six fields: version and payload type zero under 1 and 5, and the four strings under 2, 3, 4 and 6 |
| `CastProto.UnknownSkipped` | rust_backend/crates/cast/src/proto.rs:67-87 | one such field is consumed exactly, whatever its data, UTF-8 or not |
| `CastProto.UnknownIgnored` | rust_backend/crates/cast/src/proto.rs:67-87 | any list of fields of the four wire types, strings under the four known numbers excepted, changes nothing, before, between and after other fields |
| `CastProto.DecodeExtended` | rust_backend/crates/cast/src/proto.rs:62-90 | an encoded message with any such fields appended decodes to the message |
| `CastProto.CutRejected` | rust_backend/crates/cast/src/proto.rs:62-90 | a body that ends inside a field is malformed, for every field and wherever it ends |
| `CastProto.WireRejected` | rust_backend/crates/cast/src/proto.rs:86 | so is one with a key of a wire type other than 0, 1, 2 and 5 |
| `CastProto.TextRejected` | rust_backend/crates/cast/src/proto.rs:71-82 | and one in which one of the four strings is not UTF-8 |
| `CastProto.FramePrefix` | rust_backend/crates/cast/src/proto.rs:55-58 | the prefix is the length of the body exactly when that is below 2^32 |
| `CastProto.PutVarint` | rust_backend/crates/cast/src/proto.rs:99-105 | the loop appends the base-128 form |
| `CastProto.PutField` | rust_backend/crates/cast/src/proto.rs:93-97 | key, length and bytes are appended |
| `CastProto.Encode` | rust_backend/crates/cast/src/proto.rs:47-59 | the frame of a message |
| `CastProto.TakeVarint` | rust_backend/crates/cast/src/proto.rs:107-118 | the loop over ten shifts reads what the recursive definition reads |
| `CastProto.Decode` | rust_backend/crates/cast/src/proto.rs:62-90 | the loop that advances its slice and fills fields is the recursive decoder, errors included |
| `Isrc.EqualsInPrefix` | rust_backend/crates/core/src/isrc.rs:122 | looking for `=` in a prefix finds the same place or none |
| `Isrc.PrefixDecides` | rust_backend/crates/core/src/isrc.rs:115-125 | six bytes decide whether a field of any length has an ISRC key |
| `Isrc.CommentIsrc` | rust_backend/crates/core/src/isrc.rs:78-143 | the seeking reader answers for a comment block what parsing all of it answers, and never moves past the block |
| `Isrc.ScanFields` | rust_backend/crates/core/src/isrc.rs:109-142 | the same for the fields that are left, so the first ISRC field wins and a truncated one is an error |
| `Isrc.ScanField` | rust_backend/crates/core/src/isrc.rs:115-141 | one field: its value if it is an ISRC, and the reader exactly behind it in both cases |
| `Isrc.ReadTail` | rust_backend/crates/core/src/isrc.rs:127-135 | reading in pieces of 64 KiB gives the rest of the value |
| `Isrc.ReadFlac` | rust_backend/crates/core/src/isrc.rs:52-76 | the scan of the metadata blocks refines the reference on every file, malformed ones included |
| `IsrcWriter.NamesMeaning` | rust_backend/crates/core/src/isrc.rs:122-151 | the reference takes exactly the fields of the form name, equals sign, value, whose name is ISRC in any case or with the long s, and that value |
| `IsrcWriter.WrittenIsFound` | rust_backend/crates/core/src/isrc.rs:52-143 | in every file written with 24-bit big-endian block lengths, 32-bit little-endian field lengths, any blocks before and any bytes behind, the first ISRC field of the first comment block is found |
| `IsrcWriter.UnwrittenIsNot` | rust_backend/crates/core/src/isrc.rs:52-143 | and none is found if that block has no ISRC field |
| `IsrcWriter.LastBlockEnds` | rust_backend/crates/core/src/isrc.rs:68-70 | or if a block flagged as last comes before any comment block |
| `IsrcWriter.MarkerDecides` | rust_backend/crates/core/src/isrc.rs:58-61 | or if the file does not start with the marker |
| `IsrcWriter.CutIsMalformed` | rust_backend/crates/core/src/isrc.rs:56-75 | a written file that ends before its first comment block does is malformed, wherever it ends |
| `IsrcWriter.ShortComment` | rust_backend/crates/core/src/isrc.rs:91-142 | in a block that ends inside its k-th field an ISRC field before that one still counts; without one the block is malformed |
| `IsrcWriter.ShortHead` | rust_backend/crates/core/src/isrc.rs:83-107 | and so is one that ends before its fields start |
| `Surrogates.LexText` | rust_backend/crates/core/src/text.rs:34-62 | the tokens of a text are the text |
| `Surrogates.RewriteRepairs` | rust_backend/crates/core/src/text.rs:34-62 | the tokens of the result are the tokens of the input with exactly the unpaired surrogate escapes replaced, so pairs and all other bytes are kept |
| `Surrogates.NothingUnpaired` | rust_backend/crates/core/src/text.rs:34-62 | the result has no unpaired surrogate escape inside a string (RFC 8259, sections 7 and 8.2) |
| `Surrogates.RewriteIdempotent` | rust_backend/crates/core/src/text.rs:23-69 | repairing twice is repairing once |
| `Surrogates.RewriteLength` | rust_backend/crates/core/src/text.rs:47-51 | the length never changes |
| `Surrogates.Classify` | rust_backend/crates/core/src/text.rs:35-54 | the nested tests sort an escape as none, kept, pair or lone as the tokens do |
| `Surrogates.JsonSurrogates` | rust_backend/crates/core/src/text.rs:23-69 | the loop with its copied offset is the recursive rewrite, and a new string is made exactly when something was replaced |
| `JsonText.SurrogateRanges` | rust_backend/crates/core/src/text.rs:39-47 | high and low surrogates are exactly the two units of UTF-16 code points beyond 0xFFFF |
| `JsonText.WrittenTokens` | rust_backend/crates/core/src/text.rs:34-62 | the tokens of every text written from strings of characters, short escapes and `\u` escapes with digits of either case, and of bytes between them, are what was written |
| `JsonText.WrittenRepaired` | rust_backend/crates/core/src/text.rs:23-69 | so the repair of a written text replaces exactly its unpaired surrogate escapes |
| `Pool.SubmitKeepsValid` | rust_backend/crates/desktop/src/pool.rs:30-47 | submitting, by notification or a new thread, keeps every queued job covered by a thread on its way |
| `Pool.LockKeepsValid` | rust_backend/crates/desktop/src/pool.rs:50-71 | so does every critical section of a worker, timed out or not |
| `Pool.StepKeepsValid` | rust_backend/crates/desktop/src/pool.rs:30-71 | and every step, spurious wake-ups and failed thread creations included |
| `Pool.PromiseKept` | rust_backend/crates/desktop/src/pool.rs:30-71 | a thread coming for every queued job: no step but a failed thread creation can break this, from any state |
| `Pool.FailureDecides` | rust_backend/crates/desktop/src/pool.rs:42-46 | and a failed creation breaks it exactly if nobody waits to be notified and no coming thread is to spare |
| `Pool.NoJobWaitsBehindBusy` | rust_backend/crates/desktop/src/pool.rs:30-71 | over all interleavings from any state that keeps the promise, whatever failed before: it is kept at every moment exactly if every failed creation finds a waiting thread or one to spare; jobs leave in order, each once |
| `Pool.PromiseRestored` | rust_backend/crates/desktop/src/pool.rs:30-71 | in every run the promise holds again once the queue is empty |
| `Pool.FailureStrandsJob` | rust_backend/crates/desktop/src/pool.rs:42-46 | a run in which a failed creation leaves a job behind the only, busy worker |
| `Pool.QueueDrainsPastBusy` | rust_backend/crates/desktop/src/pool.rs:30-71 | from every state that keeps the promise the whole queue can be started, in order, without any busy worker moving |
| `Pool.Shared.Submit` | rust_backend/crates/desktop/src/pool.rs:31-41 | the code of the section decides as the step does, whatever the threads are doing |
| `Pool.Shared.WorkerRound` | rust_backend/crates/desktop/src/pool.rs:51-70 | so does a worker's round |
| `Auth.OwnerRemoved` | rust_backend/crates/extensions/src/auth.rs:236-253 | removing the owner of a state hands it to the first alias in map order that has not expired, future ones included, if there is one, and to nobody otherwise; other states are untouched |
| `Auth.LessMeaning` | rust_backend/crates/extensions/src/auth.rs:248 | the order of the map: after a common beginning the one that ends or has the smaller character comes first |
| `Auth.HeirResolves` | rust_backend/crates/extensions/src/auth.rs:248-252 | after that the state resolves exactly if that first alias does not lie in the future |
| `Auth.FreshAliasResolves` | rust_backend/crates/extensions/src/auth.rs:248-252 | if none of the state's other requests lies in the future, it resolves exactly if one of them is fresh |
| `Auth.RemovedUnique` | rust_backend/crates/extensions/src/auth.rs:236-253 | a removal has one result: the heir is determined |
| `Auth.RemovedKeepsValid` | rust_backend/crates/extensions/src/auth.rs:236-253 | an owner always waits for the state it owns, also after a removal |
| `Auth.InsertedKeepsValid` | rust_backend/crates/extensions/src/auth.rs:223-227 | and after a registration, which gives away no owned state |
| `Auth.ForgottenKeepsValid` | rust_backend/crates/extensions/src/auth.rs:295-297 | a resolved state is gone for every alias, and no other state resolves differently |
| `AuthRegistry.AuthRegistry.FindAlias` | rust_backend/crates/extensions/src/auth.rs:248-250 | the search finds the least id with an unexpired request for the state |
| `AuthRegistry.AuthRegistry.RemovePending` | rust_backend/crates/extensions/src/auth.rs:236-253 | refines the removal step |
| `AuthRegistry.AuthRegistry.RegisterPending` | rust_backend/crates/extensions/src/auth.rs:185-234 | the errors in their order; any error, a failed journal write included, leaves both maps as they were |
| `AuthRegistry.AuthRegistry.ClearPending` | rust_backend/crates/extensions/src/auth.rs:255-259 | refines the removal step |
| `AuthRegistry.AuthRegistry.Pending` | rust_backend/crates/extensions/src/auth.rs:261-271 | an expired request is removed and not returned |
| `AuthRegistry.AuthRegistry.ResolveCallback` | rust_backend/crates/extensions/src/auth.rs:281-305 | succeeds exactly for a state whose owner waits for it within its time; anything but a look without consuming forgets the state, even when the journal write fails |
| `AuthRegistry.AuthRegistry.Shutdown` | rust_backend/crates/extensions/src/auth.rs:307-313 | nothing is left |
| `AuthRegistry.ReplacementSafe` | rust_backend/crates/extensions/src/auth.rs:201-222 | dropping an extension's old request does not undo the conflict test made before it |
| `AuthRegistry.TrimIs` | rust_backend/crates/extensions/src/auth.rs:281-285 | white space at both ends goes, and only that |
| `AuthRegistry.ConflictsMeaning` | rust_backend/crates/extensions/src/auth.rs:201-215 | a registration is refused exactly if the state belongs to another extension that does not wait with the same state, URLs and creation time |
| `AuthRegistry.TakesRegistered` | rust_backend/crates/extensions/src/auth.rs:216-227 | after a registration exactly that request waits for its extension, the state belongs to whom it belonged to or to the extension, and states of others stay theirs |
| `AuthRegistry.RemovedElsewhere` | rust_backend/crates/extensions/src/auth.rs:236-253 | a removal takes one request away and moves no state but that one's |
| `AuthRegistry.TakesUnique` | rust_backend/crates/extensions/src/auth.rs:185-313 | every critical section is determined by the maps, its arguments and the clock |
| `AuthRegistry.FutureAliasTakesOver` | rust_backend/crates/extensions/src/auth.rs:236-305 | a run in which a fresh alias is passed over for one from the future, so that the state resolves to nobody and the attempt forgets the fresh one too |
| `AuthRegistry.RunValid` | rust_backend/crates/extensions/src/auth.rs:185-313 | in every reachable state `owners[n] == id` implies that id waits for n |
| `AuthRegistry.ResolvesOnce` | rust_backend/crates/extensions/src/auth.rs:281-305 | in every run, a state that was consumed or found invalid resolves again only after it was registered again |
| `CueLines.SplitJoins` | rust_backend/crates/core/src/cue.rs:225-233 | the pieces between newlines hold no newline and join back to the stream |
| `CueLines.StrippedIs` | rust_backend/crates/core/src/cue.rs:245-249 | one carriage return at the end of a line goes, and only that |
| `CueLines.AllLinesSplit` | rust_backend/crates/core/src/cue.rs:199-242 | repeated calls give the pieces with one carriage return removed each, and fail exactly at the first piece of 65536 bytes or more |
| `CueLines.Lines.Position` | rust_backend/crates/core/src/cue.rs:224-225 | the search finds the first newline of the buffered bytes |
| `CueLines.Lines.Next` | rust_backend/crates/core/src/cue.rs:199-242 | the answer of a call and what is left depend on the stream alone, not on how it is cut into reads |
| `CueLines.ReadAll` | rust_backend/crates/core/src/cue.rs:199-242 | for every division of the stream into reads, the lines and the failure are those of the whole stream |

## Left out

- Floating point: quotients of progress items and the similarity score are exact reals, so their rounding is
  not modelled; NaN and infinities of progress items are. The error bounds in
  `Cuts.Rounded` are those of IEEE 754 double precision, taken as given.
- `rounded_speed` (progress.rs:416-430): the x86 branch only.
- `seq` wraps at 2^63 in the code and is unbounded here, as are the other counters; u32 and u64 fields of
  the codecs are bounded.
- JSON text: payloads and snapshots are values, `removed` is a set; equal payload strings are equal values.
- `wait_delta` (subscription.rs:22-48): timeouts, wake-ups and closing; a poll is answered with `delta(since)`
  at some moment, not at all, or with an error.
- A registry replaced by a new one after shutdown, and the generation counter of `Stream` in events.rs.
- `trim` and `lowercase` before `compare_strings`, and the cancellation callbacks of all loops.
- `quantize_rgba`: counting equal pixels; `Quantizer` starts from distinct colours with counts.
- Wu.Table: one array of cells with weight, moments and squares instead of five parallel vectors.
- Quantizer.Seed: the draws of `DartRandom` are a list that may run out instead of a generator.
- Lab conversion and the k-means iterations of `wsmeans`.
- Key setup of the block ciphers: a cipher is a pair of length-keeping functions that invert each other on
  blocks.
- BlockModes.UnpadInvertsPad: block sizes over 255 truncate the count of `pad` to a byte; the lemma covers the
  strings whose count fits.
- Option parsing of the patterned transform, the progress callback, staging and publishing of the output file,
  and I/O errors other than interrupted reads.
- Observers, wakers and waiting of the cancellation registry, the order of the ids `cancel_active` reports,
  and the whitespace normalization of `active_request_cancelled`.
- SignatureFormat.RoundTrip: passes in order and sizes below 2^32, which `SignatureEncoder.Fingerprint` shows
  of every recording of at most 12 seconds; a decreasing pass underflows in the code.
- Spectra, spreading and the peak tests of `Generator`: the peaks found at a hop, with their bands, are inputs.
- `data_uri`: the base64 form of the container.
- CastProto.DecodeEncoded: bodies below 2^64 bytes; UTF-8 is a predicate on bytes that all text of the message
  satisfies.
- CastProto: bits are put together by sums of disjoint powers instead of `|` and shifts, the last group of a
  ten-byte varint modulo 2^64.
- `read_isrc` for other formats, and the decoding and trimming of the ISRC value.
- Isrc.FileReader: seeking and reading fail only at the end of the file.
- The steps inside `wait_timeout` and the jobs themselves in Pool; panics of jobs.
- `clear`, tokens and generations of the auth registry, the journal format, and the generation of callback
  states; the clock is read once per call.
- The CUE grammar above the lines, and read errors of the CUE stream.
- Downloads, TLS, HTTP, Discord, FFI, QuickJS, audio analysis, manifests and file names: I/O, foreign code,
  rounding, or single-branch facts.
