# Ohara, modelled and proved

Ohara indexes the history of a git repository and answers questions about it. This project models the parts of it
whose correctness does not follow from reading one function, and proves what they promise: for every input, every run
of calls, or every interleaving of tasks and processes. The first modules of a row stand for source files;
the others (`...Laws`, `OnnxDimsPlaces`, `RegistryMeaning`, `RankingScores` and the like) hold what is proved about them
across functions.

| modules | what they model |
|---|---|
| `Batching`, `BatchingSpec`, `BatchingLaws` | the coalescer, which gathers the rows of concurrent embedding requests into full batches |
| `CoremlFixed`, `CoremlCalls` | the fixed-shape provider below it, which pads every model call to 32 rows |
| `Varint`, `OnnxDims`, `OnnxDimsLaws`, `OnnxDimsPlaces` | the byte-level rewriter that fixes symbolic dims of an ONNX model |
| `IdleSlot`, `IdleSlotLaws` | the lazily loaded, idle-unloaded model slot, as interleaved steps |
| `Registry`, `RegistrySpec`, `RegistryLaws`, `RegistryMeaning` | the file-locked daemon registry, as interleaved file-system steps of many processes |
| `Rrf`, `RrfLaws`, `RrfOrder`, `Ranking`, `RankingLaws`, `RankingScores`, `Sorting` | reciprocal rank fusion, the reranker, recency, and the coordinator that chains them |
| `Chunker`, `ChunkerBudget`, `Symbols` | the greedy sibling-merge chunker, and the symbols it shares with attribution |
| `Text`, `ManagedBlocks`, `InitTexts`, `Oharaignore` | the managed blocks of `ohara init` and the generated section of `ohara plan` |
| `Hotmap`, `HotmapLaws` | the directory hotmap of `ohara plan` and its suggestions |
| `DiffHeaders`, `DiffHeaderLaws`, `DiffHeaderTexts`, `Attribution`, `AttributionLaws` | which symbols a diff hunk touched |
| `BlameCaching`, `ExplainChange` | the least-recently-used blame cache and `explain_change` above it |
| `Wrappers`, `Common` | `Option`, `Result` and other small shared pieces |

## How it is modelled

- Objects the source updates in place are classes (`Coalescer`, `RegistryFile`, `ChunkBuilder`, `TextFile`,
  `IgnoreFile`, `HotmapAggregator`, `BlameCache`, `Engine`); loops are loops, proved against functions of their inputs
  or of the old state. Pure code is functions.
- Concurrency is interleaving. `IdleSlot`, `Registry` and `ExplainChange` are state machines whose runs are arbitrary
  sequences of enabled steps of any number of tasks. The coalescer runs alone; the script it polls says what the
  channel yields, and `sent` records the replies in order.
- The inner embedder, the model, the reranker, the exponential, the blamer and the hydrator are functions passed in,
  as are the clock and the set of live pids. They may answer anything a contract does not exclude, errors included.
- Scores are exact reals and totally ordered. `usize` is 64 bits wide. Shifts, truncation and saturation of machine
  integers are written out where the source relies on them: varints, line numbers, range ends, parsed numbers.
- Source text and models are sequences of bytes. Other text is a sequence of characters, on which substring search
  finds what it finds on UTF-8 bytes.
- Embedding requests are never empty, because `embed_batch` answers an empty one itself (batching.rs:79-82). The
  recency half-life is positive. Section headers carry no '#' in version or timestamp.

## Where the code and its documentation differ

The model follows the code in each case.

- Without a reranker, coordinator.rs:31-33 promises the fused order. The code sorts by lane similarity times recency
  (ranking.rs:73). `RankingLaws.FusedOrderSurvives` says exactly when the answer keeps the fused order,
  `RankingLaws.FusedOrderNeedNotSurvive` gives two hits for which it does not.
- `ohara init` documents "no markers: append" and "markers: replace" (init.rs:107-113). A file with a begin marker but
  no end marker is appended to, and the next install then cuts everything from the old marker on
  (`ManagedBlocks.UnclosedIsCut`); with its only end marker above the begin marker the install fails.
  `ManagedBlocks.InstallTwiceIsOnce` is the exact condition.
- Re-running `ohara plan --write` keeps user lines verbatim (plan.rs:304-308), but each run adds another copy of the
  hint below the section (`Oharaignore.MergesKeepUserText`, `Oharaignore.MergingAgainGrows`).
- `unload_if_idle` drops a value "when it has been idle" (idle_slot.rs:49-50). The stamp is read before the lock is
  taken, so a value returned in between is still dropped. `IdleSlot.RecentDropIff` says exactly when,
  `IdleSlot.FreshValueIsDropped` is a run from the start in which it happens.
- The blame cache is keyed by repository, file and content hash (cache/blame.rs:8-13), not by the line range, so a
  second range of the same file is answered with the blame of the first (`ExplainChange.SecondIsServedFirst`).
  `ExplainChange.DirectIffOwnRange` is the exact condition on whole runs, `ExplainChange.RightIffSameRange` that for
  two requests in a row.
- A chunk's text is described as if its atoms lay one after the other (chunker.rs:11-14). With nested atoms it ends
  where the last one does, so an enclosing atom is cut (`Chunker.NestedAtomCutsChunk`); `Chunker.ChunkHoldsAtom` says exactly which are held.
- Records are "keyed by pid" (registry.rs:109-112), but a find-or-spawn closure can push a pid that is already there:
  a daemon that was alive when the list was pruned dies, and the daemon being spawned is given its pid.
  `RegistryLaws.PidsStayUnique` is the exact condition, `RegistryLaws.ReusedPidIsDuplicated` an instance.
- Hotmap keys drop a path's leading slash, so the directories of such a path are not counted; git never reports one
  (`HotmapLaws.DirKeysIff` is the exact condition).

## Model

| member | source | states |
|---|---|---|
| Batching.Coalescer.constructor | crates/ohara-embed/src/batching.rs:57-67 | a batch size of 0 becomes 1; nothing is queued, in flight or answered |
| Batching.Coalescer.Enqueue | crates/ohara-embed/src/batching.rs:143-163 | the rows of the request join the back of the queue in order; the invariant is kept |
| Batching.Coalescer.Dispatch | crates/ohara-embed/src/batching.rs:167-215 | the front rows leave the queue in one inner call whose answer, good, short or failed, settles exactly their owners; the invariant is kept |
| Batching.Coalescer.Run | crates/ohara-embed/src/batching.rs:100-141 | every run accepts every arrival, ends with an empty queue, and makes each call with the texts of its rows, from what had arrived by then; a full batch is dispatched right after the arrival that completes it, a short one exactly at a poll that finds the channel empty or closed, at most one a poll; no poll leaves a full batch waiting, and none that finds the channel empty leaves anything waiting |
| Batching.ShortCallsNeedIdles | crates/ohara-embed/src/batching.rs:128-138 | so short calls number at most the empty polls, and one more for the closed channel |
| Batching.Coalescer.Scatter | crates/ohara-embed/src/batching.rs:199-212 | the vectors settle the rows they belong to; rows of requests that already failed are dropped |
| Batching.Coalescer.Complete | crates/ohara-embed/src/batching.rs:232-242 | a request whose slots are filled leaves the table and is sent its vectors in input order; nobody else is affected |
| Batching.Coalescer.FailOwners | crates/ohara-embed/src/batching.rs:219-229 | every live owner of a lost row is sent the error exactly once |
| BatchingSpec.RowMeetsItsSlot | crates/ohara-embed/src/batching.rs:200-210 | the next row of a live request meets an empty slot, and fills the last one exactly when one row was missing, so indexing and unwrapping cannot panic |
| BatchingSpec.SettlesTracks | crates/ohara-embed/src/batching.rs:199-229 | settling one row keeps table and replies equal to what the outcome history says about every request |
| BatchingSpec.AcceptKeepsInv | crates/ohara-embed/src/batching.rs:143-163 | accepting a request keeps the coalescer's invariant, the bound on inner calls included |
| BatchingSpec.DispatchKeepsInv | crates/ohara-embed/src/batching.rs:167-215 | dispatching a full batch, or all of a shorter queue, keeps it whatever the inner embedder answers |
| BatchingSpec.BatchesSubadditive | crates/ohara-embed/src/batching.rs:1-23 | pooling rows never needs more batches than batching each pool alone |
| BatchingLaws.DrainedMeansAnswered | crates/ohara-embed/src/batching.rs:100-141 | when the queue has drained every row was embedded once, in order, the table is empty, and every request has exactly one reply |
| BatchingLaws.OkReplyIsOwnRows | crates/ohara-embed/src/batching.rs:10-23 | with a row-wise inner embedder every Ok reply is the embedding of the caller's own texts, in its order |
| BatchingLaws.FailsIffACallFailed | crates/ohara-embed/src/batching.rs:185-229 | a request gets an error if and only if one of its rows was in a failed or wrong-length call |
| BatchingLaws.FirstFailureIsReported | crates/ohara-embed/src/batching.rs:217-229 | the error is that of the first such call |
| BatchingLaws.LiveSlotsAreQueuedRows | crates/ohara-embed/src/batching.rs:38-43 | a live request's empty slots are its queued rows, each once, and `remaining` counts them and is positive |
| BatchingLaws.NoStarvation | crates/ohara-embed/src/batching.rs:110-140 | the row queued at position p when a call is made is a row of one of the next floor(p / b) + 1 calls, whatever arrives meanwhile; a run that drains in fewer calls embeds it too |
| CoremlFixed.PadRows | crates/ohara-embed/src/coreml_fixed.rs:43-47 | exactly `width` rows: the chunk, then empty strings |
| CoremlFixed.EmbedBatch | crates/ohara-embed/src/coreml_fixed.rs:77-97 | chunk, pad, call, keep the chunk's vectors; as many model calls as chunks |
| CoremlCalls.FailsWithFirstError | crates/ohara-embed/src/coreml_fixed.rs:77-97 | if model call i, sent texts 32 * i to 32 * i + 31 with empty strings for those beyond the end, is the first to fail, the provider returns its error |
| CoremlCalls.AnswersInOrder | crates/ohara-embed/src/coreml_fixed.rs:77-97 | if none fails, the vector at place p is vector p mod 32 of the answer to call p / 32, one vector per text |
| CoremlFixed.PaddingIsInvisible | crates/ohara-embed/src/coreml_fixed.rs:40-42 | with a model that is row-wise where it answers, the caller gets its own texts embedded, in order, and nothing of the padding, or a model call failed |
| CoremlFixed.CoalescingPadsNoMore | crates/ohara-embed/src/batching.rs:3-16 | at any point of any run with batches of 32, the padded total is at most that of embedding every request alone |
| CoremlFixed.CallersGetTheirOwnRows | crates/ohara-embed/src/batching.rs:10-23 | coalescing over the chunking and padding provider: with such a model every Ok reply of any run is the caller's own texts embedded, in its own order; a drained run has answered everybody, and with Ok if no model call fails |
| Varint.ReadVarint | crates/ohara-embed/src/onnx_dims.rs:170-188 | the loop returns the value and length of the varint at the start of the rest of the buffer, or its error, and never passes the buffer |
| Varint.WriteVarint | crates/ohara-embed/src/onnx_dims.rs:190-200 | the loop appends the encoding |
| Varint.DecodeExact | crates/ohara-embed/src/onnx_dims.rs:170-188 | decoding succeeds exactly when a complete varint of at most ten bytes stands first; it gives its groups modulo 2^64; which error otherwise |
| Varint.RoundTrip | crates/ohara-embed/src/onnx_dims.rs:170-200 | for every u64 and whatever follows, reading an encoding gives the value back and stops at its end |
| Varint.EncodeMinimal | crates/ohara-embed/src/onnx_dims.rs:190-200 | no varint that reads back as the value is shorter |
| Varint.DecodePrefix | crates/ohara-embed/src/onnx_dims.rs:170-188 | reading looks at no byte after the varint |
| OnnxDims.FindDim | crates/ohara-embed/src/onnx_dims.rs:80 | the value of the first entry with that name, if any |
| OnnxDims.ReadLenPayloadEnd | crates/ohara-embed/src/onnx_dims.rs:163-168 | the payload's span, or the error of an overrun |
| OnnxDims.AdvanceFixed | crates/ohara-embed/src/onnx_dims.rs:152-159 | the end of a fixed-width body, or the error of an overrun |
| OnnxDims.CopyFieldBody | crates/ohara-embed/src/onnx_dims.rs:134-150 | the end of the body of any wire type, or its error |
| OnnxDims.RewriteDimension | crates/ohara-embed/src/onnx_dims.rs:70-95 | the walk prints the parse tree of the message with named dims replaced, or fails as parsing does |
| OnnxDims.RewriteMessage | crates/ohara-embed/src/onnx_dims.rs:104-130 | the same, for a message at any level of the path |
| OnnxDims.FixGraphIoDims | crates/ohara-embed/src/onnx_dims.rs:25-65 | the same, for a model and the path 7, 11 or 12, 2, 1, 2, 1 |
| OnnxDimsLaws.ParseWellFormed | crates/ohara-embed/src/onnx_dims.rs:104-130 | what a message parses to is a tree of fields that each read back from their own bytes |
| OnnxDimsLaws.ReadFieldLocal | crates/ohara-embed/src/onnx_dims.rs:104-168 | a field is read from its own bytes only, so an unclaimed field copied verbatim stays the same field |
| OnnxDimsLaws.ParseEmit | crates/ohara-embed/src/onnx_dims.rs:104-130 | printing a well-formed tree and parsing it gives the tree back |
| OnnxDimsLaws.RewriteCommutesWithParsing | crates/ohara-embed/src/onnx_dims.rs:25-168 | parsing the rewritten model gives the model's tree with exactly the named dims replaced; rewriting fails exactly when some message walked is ill formed, with the first error |
| OnnxDimsLaws.SubstParams | crates/ohara-embed/src/onnx_dims.rs:70-95 | substitution removes the named dim_params and keeps all others, in order |
| OnnxDimsLaws.NamedParamsAreGone | crates/ohara-embed/src/onnx_dims.rs:20-25 | no listed name is left on any graph input or output, and no other one is lost |
| OnnxDimsLaws.RewriteIdempotent | crates/ohara-embed/src/onnx_dims.rs:25-168 | rewriting twice gives the same bytes as rewriting once |
| OnnxDimsLaws.UnnamedRoundTrips | crates/ohara-embed/src/onnx_dims.rs:9-16 | a model with minimal prefixes and no listed dim on the path comes back byte for byte |
| OnnxDimsPlaces.DimIsReplacedExactlyThere | crates/ohara-embed/src/onnx_dims.rs:25-95 | a dim_param inside six nested length-delimited fields with minimal prefixes, other fields beside it at every level, becomes tag 8 with the first listed value of its name if and only if the six tags are 58, 90 or 98, 18, 10, 18 and 10; otherwise the bytes come back as they were |
| OnnxDimsPlaces.DimensionIsFixed | crates/ohara-embed/src/onnx_dims.rs:70-95 | in a Dimension, tag 18 with a listed name becomes tag 8 with its value; the fields beside it are copied |
| OnnxDimsPlaces.BesideIsCopied | crates/ohara-embed/src/onnx_dims.rs:104-130 | a message none of whose fields is claimed is copied verbatim in front of whatever is rewritten after it |
| OnnxDimsPlaces.VarintFieldReads | crates/ohara-embed/src/onnx_dims.rs:134-138 | a field of wire type 0 is its tag and the next varint |
| OnnxDimsPlaces.FixedWidthReads | crates/ohara-embed/src/onnx_dims.rs:138-159 | a field of wire type 1 is its tag and eight bytes, of wire type 5 its tag and four, whatever they are; with fewer left the error names the field |
| OnnxDimsPlaces.LengthOverruns | crates/ohara-embed/src/onnx_dims.rs:163-168 | a length beyond the end of the buffer is an error that names the field |
| OnnxDimsPlaces.OtherWireTypesFail | crates/ohara-embed/src/onnx_dims.rs:134-150 | wire types 3, 4, 6 and 7 are refused by number and field |
| IdleSlot.StepKeepsInv | crates/ohara-embed/src/idle_slot.rs:30-65 | every step of every task keeps the lock, count, history and idleness invariants |
| IdleSlot.RunKeepsInv | crates/ohara-embed/src/idle_slot.rs:30-65 | so does every interleaving of getters and unloaders |
| IdleSlot.InitsAreDropsPlusLoaded | crates/ohara-embed/src/idle_slot.rs:38-46 | successful inits are the drops plus the loaded value; at most one init runs, and only over an empty slot |
| IdleSlot.ReturnsAreLoadedValues | crates/ohara-embed/src/idle_slot.rs:35-46 | every value returned was in the slot at a time within its call; gets between the same two drops share one value |
| IdleSlot.FailedInitLeavesEmpty | crates/ohara-embed/src/idle_slot.rs:27-29 | a failed init leaves the slot empty and the lock free |
| IdleSlot.NoDeadlock | crates/ohara-embed/src/idle_slot.rs:30-65 | while some call is unfinished, some unfinished call has a step to take |
| IdleSlot.UnloadRemembersStamp | crates/ohara-embed/src/idle_slot.rs:52-59 | on every run an unload in progress carries the stamp that stood when it started |
| IdleSlot.RecentDropIff | crates/ohara-embed/src/idle_slot.rs:49-65 | on every run, whatever the clock does, a drop hits a value stamped less than `idle` before the check if and only if the last get since the unload started came less than `idle` before the check, or after it; never if the stamp the unload read still stands |
| IdleSlot.RecentDropIffGetBetween | crates/ohara-embed/src/idle_slot.rs:49-65 | with a clock that never goes back: if and only if any get since the unload started did |
| IdleSlot.LateGetDoesNotStopTheDrop | crates/ohara-embed/src/idle_slot.rs:52-63 | where an unload has passed its check, the slot is loaded and nobody holds the lock, another task can get the value at any time and the unload still drops it |
| IdleSlot.FreshValueIsDropped | crates/ohara-embed/src/idle_slot.rs:49-65 | a run from the start: a value loaded at 50, checked idle for 10 at 100 and returned at 100 is dropped next |
| IdleSlotLaws.StartGoesOnIffStamped | crates/ohara-embed/src/idle_slot.rs:52-55 | on every run an unload that starts goes on if and only if the last get stamped a time other than 0, and carries that stamp |
| IdleSlotLaws.CheckGoesOnIff | crates/ohara-embed/src/idle_slot.rs:56-58 | on every run an unload that checks at `now` goes on to the write lock if and only if no idle time is asked for or the stamp plus the idle time is at most `now`; otherwise it ends and nothing changes |
| IdleSlotLaws.IdleValueIsDropped | crates/ohara-embed/src/idle_slot.rs:49-65 | on every run, with the lock free and the last get `idle` seconds ago, the four steps of an unload are enabled and leave the slot empty, with one drop more if it held a value |
| IdleSlotLaws.LoadedValueIsReturned | crates/ohara-embed/src/idle_slot.rs:34-37 | with no writer the three steps of a get on a loaded slot are enabled and return its value without an init |
| IdleSlotLaws.EmptySlotIsLoaded | crates/ohara-embed/src/idle_slot.rs:34-47 | with the lock free the six steps of a get on an empty slot are enabled; they store and return what the init gave, or leave the slot empty if it failed |
| IdleSlotLaws.SecondLookReturnsTheValue | crates/ohara-embed/src/idle_slot.rs:38-43 | a get that missed and finds the slot loaded under the write lock returns that value and runs no init |
| RegistrySpec.RegistryFile.RetainOtherPids | crates/ohara-engine/src/registry.rs:115 | the records of the pid are gone, the others stay in order |
| RegistrySpec.RegistryFile.Register | crates/ohara-engine/src/registry.rs:113-119 | the record replaces those of its pid, at the end |
| RegistrySpec.RegistryFile.Unregister | crates/ohara-engine/src/registry.rs:122-127 | the records of the pid are gone |
| RegistrySpec.RegistryFile.TouchHealth | crates/ohara-engine/src/registry.rs:162-172 | exactly the stamps of that pid change |
| RegistrySpec.RegistryFile.PruneDead | crates/ohara-engine/src/registry.rs:234-238 | the live records at most five minutes stale stay, in order |
| RegistrySpec.RegistryFile.FindOrPush | crates/ohara-engine/src/registry.rs:137-154 | pruned list; the found record, or the pushed one at the end, or nothing if spawning failed |
| Registry.StepKeepsInv | crates/ohara-engine/src/registry.rs:75-229 | every lock, read, truncate, write, seed and unlock step of any process keeps the file in line with the log |
| Registry.RunKeepsInv | crates/ohara-engine/src/registry.rs:75-229 | so does every interleaving, from a missing, empty or written file |
| RegistryLaws.Linearizable | crates/ohara-engine/src/registry.rs:182-229 | on every interleaving calls answer as if run one by one in lock order, none fails to parse, and an unlocked file holds the fold of the operations |
| RegistryLaws.NoReaderSeesHalfWrittenFile | crates/ohara-engine/src/registry.rs:66-74 | nobody holding the lock finds an empty or torn file, except `open`, which then seeds it |
| RegistryLaws.LockIsExclusive | crates/ohara-engine/src/registry.rs:182-229 | at most one process is between lock and unlock |
| RegistryLaws.PidsStayUnique | crates/ohara-engine/src/registry.rs:109-154 | an operation keeps pids unique if and only if it is not a find-or-spawn pushing a pid a kept record has |
| RegistryLaws.ReusedPidIsDuplicated | crates/ohara-engine/src/registry.rs:137-154 | a spawned daemon that is given the pid of a record kept by the pruning leaves two records of that pid |
| RegistryLaws.PidsUniqueOnEveryRun | crates/ohara-engine/src/registry.rs:109-154 | on every interleaving: records have unique pids after each call of the log if and only if no call pushes a pid a kept record has; an unlocked file holds the records after the last call |
| RegistryLaws.NoLostUpdate | crates/ohara-engine/src/registry.rs:129-133 | a pid stays registered under its version, whatever else runs, until some call removes it, registers it under another version, or finds it dead or stale |
| RegistryLaws.AtMostOneSpawns | crates/ohara-engine/src/registry.rs:137-154 | after one find-or-spawn has pushed, no later one for that version pushes while the record stays registered, alive and fresh; it finds one |
| RegistryMeaning.OperationDoesAsPromised | crates/ohara-engine/src/registry.rs:104-172 | every operation, in plain terms: the pruning ones keep exactly the records with a live pid stamped at most 300 seconds ago, in order; find-or-spawn hands out the first of those with the version, or adds the spawned one; the others remove, replace or restamp exactly the records of the pid |
| RegistryMeaning.EveryCallDoesAsPromised | crates/ohara-engine/src/registry.rs:104-229 | on every interleaving every call that returned did just that to the records its predecessors in lock order left |
| RegistryMeaning.FoundIsLiveAndRecent | crates/ohara-engine/src/registry.rs:137-154 | on every interleaving find-or-spawn answers with a found record if and only if the file held one of the asked version with a live pid and a stamp at most 300 seconds old, and the record is such a one |
| RegistryMeaning.SomeCallGoesOn | crates/ohara-engine/src/registry.rs:178-229 | on every interleaving, while calls are under way one of them has a step to take |
| RegistryMeaning.CallCompletes | crates/ohara-engine/src/registry.rs:178-229 | on every interleaving that leaves the lock free, the steps of any call of a process with a handle are enabled one after the other; the file then holds what the call promises and the lock is free again |
| RegistryMeaning.OpenCompletes | crates/ohara-engine/src/registry.rs:66-102 | so are those of `open`, which writes an empty list into a missing or zero-length file and leaves any other alone |
| Sorting.SortSorted | crates/ohara-core/src/retriever/ranking.rs:73 | `sort_by` with a total preorder sorts |
| Sorting.SortStable | crates/ohara-core/src/retriever/ranking.rs:73 | it keeps tied elements in order |
| Sorting.SortElements | crates/ohara-core/src/retriever/ranking.rs:73 | it permutes |
| Sorting.StableSortIsSort | crates/ohara-core/src/retriever/ranking.rs:73 | every sorted sequence with the same tied elements in the same order is the modelled sort, so any stable sort returns it |
| Sorting.StrictOrderUnique | crates/ohara-core/src/query.rs:91-98 | a strict order has one listing of a set, whatever order its table is enumerated in |
| Sorting.LexIsDictionaryOrder | crates/ohara-cli/src/commands/plan.rs:202 | texts are ordered by the first character in which they differ, a prefix first |
| Rrf.ReciprocalRankFusion | crates/ohara-core/src/query.rs:67-100 | the loops and the sort list exactly the ids of the lanes, by summed reciprocal rank and then first appearance |
| RrfLaws.FusedIsUnique | crates/ohara-core/src/query.rs:59-67 | that is a duplicate-free permutation of the union of the lanes, and the only one |
| RrfLaws.FusedCountsUnion | crates/ohara-core/src/query.rs:67-100 | it is as long as the union of the lanes is large |
| RrfLaws.DominanceIsKept | crates/ohara-core/src/query.rs:67-100 | with duplicate-free lanes an id that precedes another wherever that one appears precedes it in the result |
| RrfLaws.TwoLanesBeatOne | crates/ohara-core/src/query.rs:67-100 | an id within rank k + 2 in two lanes scores at least as high as any id of only one lane |
| RrfLaws.SingleLaneUnchanged | crates/ohara-core/src/query.rs:67-100 | a single duplicate-free lane comes back unchanged |
| RrfOrder.ScoreIsTotal | crates/ohara-core/src/query.rs:67-90 | an id's score is the sum of 1 / (k + position + 1) over all its sightings in all lanes |
| RrfOrder.RankedByTotalThenFirstPlace | crates/ohara-core/src/query.rs:59-100 | of two ids of the result the first is the one with the larger sum, or at equal sums the one first seen in the earlier lane or at the earlier position of the same lane, if and only if |
| Ranking.FuseToPool | crates/ohara-core/src/retriever/ranking.rs:33-45 | the known hits of the first `pool_k` fused ids, in fused order |
| Ranking.CrossEncode | crates/ohara-core/src/retriever/rerank.rs:28-49 | each hit with the sigmoid of its own score, sorted; the reranker's error; no call for no hits |
| Ranking.ApplyRecency | crates/ohara-core/src/retriever/ranking.rs:54-75 | each hit boosted by its own age, sorted |
| Ranking.Run | crates/ohara-core/src/retriever/coordinator.rs:34-112 | the first failed lane's error, or the pipeline over the fused lanes and the first hit of every id |
| RankingLaws.SigmoidIsMonotone | crates/ohara-core/src/retriever/rerank.rs:14-22 | both branches agree: scores lie strictly between 0 and 1, in the order of the logits |
| RankingLaws.NormalisedIds | crates/ohara-core/src/retriever/rerank.rs:39-46 | every hit carries the sigmoid of the score at its own place; hits beyond the scores are dropped |
| RankingLaws.ByIdIds | crates/ohara-core/src/retriever/coordinator.rs:51-73 | the table holds exactly the ids of the lanes, each with a hit of that id |
| RankingLaws.FirstLaneWins | crates/ohara-core/src/retriever/coordinator.rs:51-73 | a later lane never replaces a hit |
| RankingLaws.AnswerIsTopRanked | crates/ohara-core/src/retriever/coordinator.rs:34-112 | distinct ids, all from the fused top, min(final_k, rerank_top_k, union) of them, in falling order of final score |
| RankingLaws.TiesKeepEarlierOrder | crates/ohara-core/src/retriever/ranking.rs:73 | hits of equal final score keep the order of the stage before |
| RankingLaws.RecencyIsBounded | crates/ohara-core/src/retriever/ranking.rs:67-68 | the recency factor lies between 0 and 1 |
| RankingLaws.RecencyNeverOverturnsBigLeads | crates/ohara-core/src/retriever/ranking.rs:47-53 | with nonnegative weight and scores recency never lets a hit overtake one that scores more than (1 + weight) times as much |
| RankingLaws.BigLeadsAreReturnedFirst | crates/ohara-core/src/retriever/coordinator.rs:94-111 | so where a hit is in the answer, one with such a lead over it is too, and earlier |
| RankingLaws.NewerRanksFirst | crates/ohara-core/src/retriever/ranking.rs:47-53 | at equal positive scores and positive weight the newer hit comes first |
| RankingLaws.FusedOrderSurvives | crates/ohara-core/src/retriever/coordinator.rs:31-33 | without a reranker the returned ids are the top of the fused ranking in fused order if and only if, as far as the answer reaches, no later hit of the pool is boosted above an earlier one |
| RankingLaws.TopOrderSurvives | crates/ohara-core/src/retriever/ranking.rs:54-75 | the recency stage alone: its first k hits are the pool's first k in order if and only if that holds of their boosted scores |
| RankingLaws.FusedOrderNeedNotSurvive | crates/ohara-core/src/retriever/coordinator.rs:31-33 | one lane of two hits for which it does not |
| RankingScores.EachIsScoredByItsOwnText | crates/ohara-core/src/retriever/rerank.rs:28-49 | with a reranker that scores texts, the result is the candidates, none lost or added, each with 1 / (1 + exp(-score of its own text)), best first |
| RankingScores.EachIsAgedByItsOwnTime | crates/ohara-core/src/retriever/ranking.rs:54-75 | the recency stage returns its hits, none lost or added, each multiplied by 1 + weight * exp(-days / half-life) for the days since its own commit, none for one in the future, best first |
| RankingScores.TableHoldsFirstHits | crates/ohara-core/src/retriever/coordinator.rs:51-73 | the hit kept for an id is the one at its first place: the first lane that has it, the first position there |
| RankingScores.ReturnedHitsCarryTheirOwnScores | crates/ohara-core/src/retriever/coordinator.rs:34-112 | every hit of the pipeline's answer is that hit of its id, with the score of its own text, or its lane's without a reranker, times the boost of its own age |
| RankingScores.UnreturnedScoreNoHigher | crates/ohara-core/src/retriever/coordinator.rs:94-112 | a candidate that is cut off scores no higher than any hit returned, and then the answer is full |
| Chunker.ChunkBuilder.Start | crates/ohara-parse/src/chunker.rs:80-88 | a chunk in progress of one atom |
| Chunker.ChunkBuilder.Append | crates/ohara-parse/src/chunker.rs:90-94 | the chunk in progress grows by the atom: names, end and token total stay those of its atoms |
| Chunker.ChunkBuilder.Finish | crates/ohara-parse/src/chunker.rs:96-118 | the symbol for the atoms merged: the first one's, with the other names, the last end, and the slice or the first one's text |
| Chunker.ChunkSymbols | crates/ohara-parse/src/chunker.rs:42-69 | one chunk per greedy run of the atoms |
| Chunker.RunsFromPartition | crates/ohara-parse/src/chunker.rs:31-41 | the runs are the atoms in order, none lost, and every run of two or more is within the budget |
| Chunker.GreedyIsOptimal | crates/ohara-parse/src/chunker.rs:42-69 | no partition into allowed runs, even of a longer sequence ending the same way, has fewer runs than the greedy rest |
| Chunker.ChunksAreOptimal | crates/ohara-parse/src/chunker.rs:42-69 | the chunks are such a partition of the atoms, and no other one is smaller |
| Chunker.ChunkHoldsAtom | crates/ohara-parse/src/chunker.rs:90-105 | in a chunk of atoms none of which starts before the first, an atom's text stands at its own offset in the chunk's text if and only if it does not end after the last atom |
| Chunker.ChunkHoldsAtoms | crates/ohara-parse/src/chunker.rs:11-14 | so with nondecreasing starts and ends a chunk holds all its atoms |
| Chunker.NestedAtomCutsChunk | crates/ohara-parse/src/chunker.rs:90-105 | an atom merged with one nested in it is cut off where the nested one ends |
| ChunkerBudget.AQuarterOfTheCharacters | crates/ohara-parse/src/chunker.rs:23-29 | an atom weighs a quarter, rounded down, of the bytes of its text that do not continue a character; for ASCII a quarter of its length |
| ChunkerBudget.RunsAreGreedy | crates/ohara-parse/src/chunker.rs:31-69 | the runs are the atoms in order; in that measure a run of two or more weighs at most the budget, and a run together with the next one's first atom more |
| ChunkerBudget.OnlyGreedyPartition | crates/ohara-parse/src/chunker.rs:42-69 | no other partition of the atoms has these properties |
| ChunkerBudget.ChunkTextOrFallback | crates/ohara-parse/src/chunker.rs:96-105 | a chunk's text is the source between its bounds, or the first atom's text where those are out of order, out of range or inside a character |
| Text.Find | crates/ohara-cli/src/commands/init.rs:139-140 | the leftmost occurrence, or none |
| Text.FirstIsKept | crates/ohara-cli/src/commands/init.rs:138-147 | replacing the text from the first marker on by text that opens with it leaves it the first: none straddles the seam |
| ManagedBlocks.ReplaceIsSplice | crates/ohara-cli/src/commands/init.rs:138-147 | only the block from the first begin marker to the next end marker changes |
| ManagedBlocks.ReplaceNeedsBlock | crates/ohara-cli/src/commands/init.rs:136-138 | replacing succeeds if and only if there is such a block |
| ManagedBlocks.AppendManagedBlock | crates/ohara-cli/src/commands/init.rs:150-159 | the old text, a blank line, the block, a newline |
| ManagedBlocks.TextFile.Install | crates/ohara-cli/src/commands/init.rs:86-134 | the file becomes the fresh, spliced or appended text, or stays as it is on an error |
| ManagedBlocks.FreshStays | crates/ohara-cli/src/commands/init.rs:114-118 | a file written from nothing or by force is left alone by the next install |
| ManagedBlocks.UnclosedIsCut | crates/ohara-cli/src/commands/init.rs:122-127 | a begin marker without any end marker: the first install appends, the second cuts from the old marker on |
| ManagedBlocks.InstallTwiceIsOnce | crates/ohara-cli/src/commands/init.rs:107-134 | installing twice equals installing once if and only if the first begin marker, if any, is followed by an end marker |
| ManagedBlocks.AnyNumberOfInstalls | crates/ohara-cli/src/commands/init.rs:107-134 | on such files any number of installs equals one |
| InitTexts.HookIsWellFenced | crates/ohara-cli/src/commands/init.rs:9-28 | the shipped hook body and markers are such that its end marker closes the block |
| InitTexts.StanzaIsWellFenced | crates/ohara-cli/src/commands/init.rs:14-37 | so are those of the CLAUDE.md stanza |
| InitTexts.FreshFiles | crates/ohara-cli/src/commands/init.rs:9-37 | the first and last lines of a fresh hook and of a fresh CLAUDE.md, literally |
| Oharaignore.RenderOharaignoreBody | crates/ohara-cli/src/commands/plan.rs:285-302 | opening line, one line per pattern, end marker, blank line, hint |
| Oharaignore.IgnoreFile.Write | crates/ohara-cli/src/commands/plan.rs:77-90 | the file becomes the section or the merge, or stays as it is on an error |
| Oharaignore.RenderedIsSection | crates/ohara-cli/src/commands/plan.rs:285-302 | a section whose patterns do not contain the end marker has that marker first at its own end |
| Oharaignore.MergeKeepsUserText | crates/ohara-cli/src/commands/plan.rs:304-344 | the user's prefix and suffix survive a merge verbatim, and the next merge finds the same prefix, and the hint before the suffix |
| Oharaignore.MergesKeepUserText | crates/ohara-cli/src/commands/plan.rs:304-344 | after n merges: prefix, last section, n - 1 copies of the hint, suffix |
| Oharaignore.FirstSection | crates/ohara-cli/src/commands/plan.rs:310-313 | a blank file becomes the section, with nothing of the user's around it |
| Oharaignore.MergingAgainGrows | crates/ohara-cli/src/commands/plan.rs:304-344 | merging the same section again always succeeds and always grows the file by one hint |
| Oharaignore.MergeRefused | crates/ohara-cli/src/commands/plan.rs:304-328 | a merge is refused if and only if the file has text but no begin marker followed by an end marker; the error says which of the two is missing |
| Oharaignore.AroundIsCut | crates/ohara-cli/src/commands/plan.rs:329-344 | the user's text is what stands before the first begin marker and below the line on which the first end marker after it ends, whatever else that line holds |
| Oharaignore.SectionText | crates/ohara-cli/src/commands/plan.rs:277-302 | the whole text of a section, literally |
| Hotmap.HotmapAggregator.Record | crates/ohara-cli/src/commands/plan.rs:133-156 | the nested loops bump each key of the commit's paths once; the counts stay those of the commits recorded |
| Hotmap.SuggestPatterns | crates/ohara-cli/src/commands/plan.rs:178-204 | exactly the busy, non-allowlisted top-level directories, sorted, each once |
| Hotmap.SuggestionsAreUnique | crates/ohara-cli/src/commands/plan.rs:175-178 | there is one such list |
| HotmapLaws.DirKeysArePrefixes | crates/ohara-cli/src/commands/plan.rs:137-150 | the directory keys of a path are exactly its prefixes that end with a slash |
| HotmapLaws.DirKeysIff | crates/ohara-cli/src/commands/plan.rs:137-150 | that holds if and only if the path does not open with a slash or has no other one |
| HotmapLaws.CountsAreCommits | crates/ohara-cli/src/commands/plan.rs:130-156 | the count of a directory is the number of commits with a path under it |
| HotmapLaws.CountsShrinkDownwards | crates/ohara-cli/src/commands/plan.rs:130-156 | no directory counts more than its parent or than the total |
| HotmapLaws.SuggestionsAreBusyDirs | crates/ohara-cli/src/commands/plan.rs:167-204 | suggested if and only if top-level, not allowlisted, and touched by at least one commit in twenty; the allowlist is Documentation/, docs/ and doc/ |
| DiffHeaders.ParsePostImageRanges | crates/ohara-core/src/hunk_attribution.rs:66-93 | the loop collects the nonempty `+C,D` ranges of the `@@` lines, in order |
| DiffHeaders.ParseHunkHeaderSuffixes | crates/ohara-core/src/hunk_attribution.rs:101-116 | the loop collects the nonempty trimmed texts after the second `@@` |
| DiffHeaderLaws.ParseDecimal | crates/ohara-core/src/hunk_attribution.rs:83-86 | every u32 printed in decimal parses back |
| DiffHeaderLaws.HeaderReads | crates/ohara-core/src/hunk_attribution.rs:66-92 | a printed header, with or without a count of 1 and whatever context follows, gives its post-image range |
| DiffHeaderLaws.PrintedRangesAreRecovered | crates/ohara-core/src/hunk_attribution.rs:63-93 | parsing a printed diff recovers the nonempty post-image ranges of its headers, in order |
| DiffHeaderLaws.PrintedContextsAreRecovered | crates/ohara-core/src/hunk_attribution.rs:95-116 | and the nonempty trimmed contexts of its headers, in order |
| DiffHeaderLaws.SymbolIsFirstNamed | crates/ohara-core/src/hunk_attribution.rs:118-176 | a context names a symbol if and only if it does so by the first keyword of the list whose first occurrence as a word is followed by an identifier, and the name is that whole identifier |
| DiffHeaderLaws.SignatureNamesFunction | crates/ohara-core/src/hunk_attribution.rs:133-134 | in particular, where the first `fn` that stands as a word is followed by an identifier, that function is named, whatever other keywords follow |
| DiffHeaderTexts.TrimIff | crates/ohara-core/src/hunk_attribution.rs:109 | trimming takes exactly the whitespace off both ends |
| DiffHeaderTexts.WhitespaceCodes | crates/ohara-core/src/hunk_attribution.rs:109 | whitespace is the Unicode property White_Space, by code points |
| DiffHeaderTexts.TokensAre | crates/ohara-core/src/hunk_attribution.rs:75-78 | tokens are the words between whitespace of any kind and length |
| DiffHeaderTexts.LinesAre | crates/ohara-core/src/hunk_attribution.rs:68 | a newline ends a line, which loses one carriage return; text after the last newline is a line as it stands |
| DiffHeaderTexts.ParseU32Iff | crates/ohara-core/src/hunk_attribution.rs:83-86 | a text parses to n if and only if it is n in decimal, perhaps after zeros and one plus sign, and n is at most 4294967295 |
| DiffHeaderTexts.RangeOfTokenIff | crates/ohara-core/src/hunk_attribution.rs:79-91 | a token gives a range if and only if it is a plus sign, a start and perhaps a comma and a count, both numbers and neither 0 |
| DiffHeaderTexts.IdentifierCodes | crates/ohara-core/src/hunk_attribution.rs:153-168 | identifiers are made of ASCII letters, digits and the underscore |
| DiffHeaderTexts.KeywordsDecide | crates/ohara-core/src/hunk_attribution.rs:133-144 | the ten keywords with their kinds, in order: the first that names anything decides |
| Attribution.ExactPass | crates/ohara-core/src/hunk_attribution.rs:189-212 | the nested loops enter exactly the touched symbols, the last of each key |
| Attribution.AttributeHunk | crates/ohara-core/src/hunk_attribution.rs:182-228 | the values of the attribution table in key order, each once |
| AttributionLaws.SpanLines | crates/ohara-core/src/hunk_attribution.rs:41-61 | a nonempty span in bounds runs from the line of its first byte to the line of its last |
| AttributionLaws.TouchedIffByteIn | crates/ohara-core/src/hunk_attribution.rs:194-198 | comparing line spans with saturating range ends finds exactly the symbols with a byte on a covered line |
| AttributionLaws.LastTouchedWins | crates/ohara-core/src/hunk_attribution.rs:199-207 | of several touched symbols with one key the last one's record is kept |
| AttributionLaws.ExactSpanIffByteOnRange | crates/ohara-core/src/hunk_attribution.rs:178-228 | a key is attributed by exact span if and only if some symbol with that key has a byte on a line of a parsed range |
| AttributionLaws.HeadersAreTheFallback | crates/ohara-core/src/hunk_attribution.rs:214-225 | a key is attributed by header if and only if a header names it and no exact span does |
| AttributionLaws.PrintedContextsAreTheFallback | crates/ohara-core/src/hunk_attribution.rs:214-225 | on a printed diff: if and only if the trimmed context of some header names it and no exact span does |
| AttributionLaws.KeysAreUnique | crates/ohara-core/src/hunk_attribution.rs:178-181 | one record per kind and name, in one possible order |
| AttributionLaws.RecordsComeByKindThenName | crates/ohara-core/src/hunk_attribution.rs:186-228 | functions, then methods, classes and constants, each kind by name in dictionary order |
| AttributionLaws.NewlinesBefore | crates/ohara-core/src/hunk_attribution.rs:45-48 | a line number counts the bytes of value 10 before the place |
| BlameCaching.BlameCache.constructor | crates/ohara-engine/src/cache/blame.rs:35-41 | an empty cache; a capacity of 0 becomes 1 |
| BlameCaching.BlameCache.Get | crates/ohara-engine/src/cache/blame.rs:45-58 | the entry of the key, moved to the front; or none, and nothing changes |
| BlameCaching.BlameCache.Put | crates/ohara-engine/src/cache/blame.rs:62-79 | the entry comes to the front; an older one of its key goes, else the last one if the cache was full |
| BlameCaching.BlameCache.InvalidateRepo | crates/ohara-engine/src/cache/blame.rs:85-97 | exactly the entries of the repository go, the others keep their order |
| BlameCaching.CacheIsMostRecent | crates/ohara-engine/src/cache/blame.rs:15-25 | after any lookups, insertions and invalidations the cache holds exactly the most recently used keys, as many as fit, latest first; an invalidation forgets the uses of its repository and of evicted keys |
| ExplainChange.Engine.constructor | crates/ohara-engine/src/engine.rs:62-79 | an empty blame cache of 64 entries |
| ExplainChange.Engine.ExplainChange | crates/ohara-engine/src/engine.rs:302-360 | the method is one undisturbed request of the state machine: same answer, same cache, hits counted |
| ExplainChange.AnswersAreBlames | crates/ohara-engine/src/engine.rs:293-360 | on every interleaving each answer is direct blame plus hydration for the range it was served from |
| ExplainChange.CacheIsTransparent | crates/ohara-engine/src/engine.rs:293-360 | on every run of requests, evictions and invalidations in which queries under one key share one range, every answer is that of direct blame plus hydration |
| ExplainChange.InvalidationForgets | crates/ohara-engine/src/engine.rs:278-291 | on every interleaving an invalidation drops exactly the entries of its repository and leaves requests under way alone; the next request for it blames anew |
| ExplainChange.DirectIffOwnRange | crates/ohara-engine/src/engine.rs:293-360 | on every run and for every pattern of failing blames: every answer is that of direct blame plus hydration, whatever blame and hydration return, if and only if the bookkeeping of keys and ranges alone serves every request from its own range |
| ExplainChange.ShapeRun | crates/ohara-engine/src/engine.rs:293-360 | that bookkeeping, hits and evictions included, does not depend on what blame and hydration return |
| ExplainChange.OneRangeIsOwnRange | crates/ohara-engine/src/engine.rs:310-347 | queries under one key sharing one range meet the condition |
| ExplainChange.ParallelMissesAreDirect | crates/ohara-engine/src/engine.rs:310-347 | so do two requests for any two ranges that both begin before either finishes |
| ExplainChange.SecondIsServedFirst | crates/ohara-engine/src/cache/blame.rs:8-13 | the second of two queries under one key is answered with the blame of the first one's lines |
| ExplainChange.RightIffSameRange | crates/ohara-engine/src/cache/blame.rs:8-13 | for two requests in a row under one key, from an empty cache: the second answer is the direct one, whatever blame and hydration return, if and only if the two ranges are equal |

## Left out

- SQLite, libgit2, tree-sitter, fastembed, ONNX and CoreML themselves: foreign code; their results are inputs.
- The indexer and its stages, the Unix-socket server, the daemon watchdog, MCP and CLI plumbing: input and output.
- Floating-point rounding and NaN: scores and shares are exact reals.
- Cancelled tasks, poisoned locks, and input or output errors and crashes in the middle of a registry write.
- Query intent keywords, resource tiers, status wording, the metadata and embedding caches: settled by reading one body.
- Sorting and truncating the hits of `explain_change`, and its storage lookups: part of the hydrator passed in.
- Counters such as request ids and the total of commits are unbounded; the source's 64 bits are not reached.
- Batching.Coalescer.Run: the channel's bound of 256 requests and a caller that stops waiting are not modelled; neither changes what the coalescer does.
- IdleSlot.RunKeepsInv: the lock may be granted to any waiting task, so fairness between waiters is not modelled; an init cancelled by dropping its future is not either.
- Registry.RunKeepsInv: steps between lock and unlock do not fail; opening the file again for every call is one step with waiting for the lock.
- OnnxDimsLaws.RewriteIdempotent: assumes that the output is shorter than 2^64 bytes, as every buffer in memory is; so do the other laws about parsing the output again.
- Rrf.ReciprocalRankFusion: sums are exact, so ties by rounding are not modelled.
- Hotmap.SuggestPatterns: the share is compared exactly with 1/20 instead of as 64-bit floats.
- AttributionLaws.ExactSpanIffByteOnRange: spans are nonempty and within the source, and no range ends past the largest u32 unless the source is too short to reach it; empty spans count as touching the line they stand on.
- Oharaignore.RenderedIsSection: versions and timestamps with a '#' are not covered; the crate version and the ISO timestamp have none.
- ExplainChange.CacheIsTransparent: blame is a function of repository, file, content hash and range, so a HEAD that moves between hashing and blaming is not modelled.
