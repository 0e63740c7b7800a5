# Verified models of five Brain cores

This project models the stateful cores of Brain (a memory database) where a fast or multi-table
structure has to agree with a simple one, and proves that it does:

- the two-tier memory index: a published graph beside a mutable pending buffer, with flushes that
  build while writers go on (`TwoTier`, `TwoTierSearch`, `SharedIndex`);
- the graph indexes under it: id map, tombstone bitmap, the escalating search, and the many-to-one
  statement-question and HyPE indexes (`IdMaps`, `Tombstones`, `Escalation`, `MemoryHnsw`,
  `Collapse`, `StatementQuestions`, `Hype`);
- the snapshot wrapper's byte format and the three-file save protocol (`Codec`, `Headers`,
  `BodyLoops`, `Snapshots`);
- the FORGET cascade and its revert over statements, relations and their index tables (`Cascade`,
  `RelationCascade`, `CascadeTables`, `CascadeBatches`, `CascadeStore`, `CascadeRevert`,
  `CascadeRuns`);
- the entity resolver's tiers and passes (`Names`, `Resolver`, `ResolverTiers`, `ResolverRuns`,
  `ResolverPasses`, `ShardRuns`),
  and the credential broker's gate (`BrokerGate`).

`Ranking` holds what the searches share: a *best-k answer* (`IsTopK`) is any list of at most k
distinct scored ids, in descending order, that leaves out nothing scoring above what it lists. Ties
are therefore left open, as the code leaves them.

## How the source is modelled

- Scores, distances and confidences are reals. Vectors are opaque; a scoring is any function of
  one. The graph library is a function from a fetch size and a beam width to neighbours, and *exact*
  means it returns a prefix of one full distance order.
- Integers are unbounded where no width matters. Widths are explicit for saturating `usize`
  arithmetic in the searches, 64-bit tombstone words, the 32-bit id counter, the 64-bit epoch, and
  every field of the wrapper.
- BLAKE3 and CRC32C are parameters. Crash safety assumes that hashes do not collide on the finitely
  many file contents that occurred, never that a hash is injective.
- Overflow rows and entities get fresh ids. An overflow id is named by the statement it was drawn
  for and a serial number, which is how results stay comparable "up to fresh ids".
- A protocol with concurrency or crashes is a state machine over its atomic steps (critical sections,
  file writes), and its results range over every sequence of steps. The clock is a parameter that
  never runs backwards.
- Table and hash-map iteration is any order (`:|` on a set).
- A memory belongs to one scope. Relation forgets look rows up under it, so the events of a run that
  reach a relation are the reverts and the forgets of its own scope (`Heard`).

Places where the code, not its comments, is followed:

- A statement revert clears a `SourceMemoryForgotten` tombstone whatever the undo record's outcome
  says (`cascade.rs:927-939`), although the comment there asks for the outcome too. A relation revert
  does look at it.
- `rekey_predicate_index` is documented for still-current statements but is called for every affected
  row, so a superseded row can gain a predicate entry. `ForgetKeepsIndexIff` and
  `RevertKeepsIndexIff` give the exact condition for one step, `RunIsIndexedIff` for a whole run,
  `SupersededLeaks` an instance.
- A relation revert leaves a superseded relation tombstoned even when its own forget set the
  tombstone. `RelationCascade.RevertedRunRestoresIff` gives the exact condition,
  `SupersededIsNotRestored` an instance.
- `swap` is documented as atomic but stores the new main before it clears pending.
  `SwapIsAtomicIff` says for which indexes no reader can tell, `SwapShowsTheGap` gives an instance,
  and `SwapLosesGapWrites` says what writers in between leave.
- A search loads main before it scans pending, so a publish in between can hide a memory that is live
  throughout. `LiveIsMissedIff` gives the exact condition, `PublishInTheGapHides` an instance.
- A pending entry that overrides a different live vector can push a better answer out of the merge.
  `ExactIffHarmless` gives the exact condition, `StaleOverrideMisleads` an instance.
- The HyPE search fetches once, so tombstoned points can use up the fetch. Its contract gives the exact
  condition for a full answer, `EightDeadHideOne` an instance.
- A statement with an unresolved subject is kept out of the by-subject index at creation, but a
  tombstone's flip inserts a row for it. `PendingIsListedIff` gives the exact condition,
  `PendingGainsRow` an instance.
- A confirmed partial match skips the digit-run guard that every other tier applies.
  `DigitSafeIff` and `RunIsDigitSafeIff` give the exact condition on a call's inputs,
  `ConfirmedPartialMergesNumbers` and `VersionsMerge` the instances.
- A beam override of 0 never grows, so the statement-question search can run for ever.
  `TerminationIff` gives the exact condition, `ZeroOverrideLoops` an instance.

## Model

| member | source | states |
|---|---|---|
| TwoTier.InsertIsUpdate | crates/brain-index/src/shared.rs:615-638 | an insert or re-insert changes exactly one key of the map a reader sees, and keeps the tiers' invariant |
| TwoTier.TombstoneIsRemoval | crates/brain-index/src/shared.rs:642-653 | a tombstone removes exactly one key, whichever tiers held it |
| TwoTier.PublishKeepsView | crates/brain-index/src/shared.rs:505-563 | publishing a build changes nothing a reader can look up, however many inserts, re-inserts and tombstones ran since the snapshot |
| TwoTier.QuietFlushDrains | crates/brain-index/src/shared.rs:505-563 | with no writer during the build, nothing stays pending |
| TwoTier.FailedBuildIsRetried | crates/brain-index/src/shared.rs:505-563 | a failed build leaves everything as it was, and the next flush, left alone, publishes and drains with every lookup kept |
| TwoTier.SwapInWindowIsOverwritten | crates/brain-index/src/shared.rs:491-563 | a swap inside a build window is lost: with any writers since, the publish ends where swapping in the build itself would have |
| TwoTier.SwapIsAtomicIff | crates/brain-index/src/shared.rs:486-501 | between storing main and clearing pending every reader already sees the new index if and only if that index has every pending write and no overlay tombstone |
| TwoTier.SwapShowsTheGap | crates/brain-index/src/shared.rs:486-501 | a pending memory the new index lacks is seen between the halves and gone after them |
| TwoTier.SwapLosesGapWrites | crates/brain-index/src/shared.rs:486-501 | whatever writers did between the halves, the swap ends with the new index alone |
| TwoTier.InsertKeepsWindow | crates/brain-index/src/shared.rs:439-456 | an insert keeps the relation between an open build and the tiers |
| TwoTier.TombstoneKeepsWindow | crates/brain-index/src/shared.rs:475-485 | so does a tombstone |
| TwoTier.SnapshotOpensWindow | crates/brain-index/src/shared.rs:505-563 | a build of old main, overridden by live snapshot entries minus tombstoned ones, opens that relation |
| TwoTier.StepKeepsInv | crates/brain-index/src/shared.rs:505-563 | every step of writers and flushes keeps the whole-system invariant |
| TwoTier.StepRefines | crates/brain-index/src/shared.rs:505-563 | every step is an update, a removal or nothing on one map from id to vector |
| TwoTier.RunRefinesMap | crates/brain-index/src/shared.rs:439-563 | so every run with serial flushes refines that map |
| TwoTierSearch.SearchReturnsLive | crates/brain-index/src/shared.rs:307-338 | with its three reads at different instants of any run, every id a search returns passed the filter and was live at some instant in between, whatever main answered |
| TwoTierSearch.FoundIffServed | crates/brain-index/src/shared.rs:307-338 | with an exact main and room, a memory live throughout the search is found if and only if main held it at the load or it was pending at the scan |
| TwoTierSearch.LiveIsMissedIff | crates/brain-index/src/shared.rs:307-338 | so it is missed if and only if main did not hold it at the load and a publish folded its pending entry before the scan, with no re-insert after |
| TwoTierSearch.LiveThroughoutIsFound | crates/brain-index/src/shared.rs:307-338 | in particular it is found if no publish falls between the load and the scan |
| TwoTierSearch.PublishInTheGapHides | crates/brain-index/src/shared.rs:307-338 | a run in which such a publish hides a memory that is live at every instant: no answer of the search lists it |
| TwoTierSearch.ContainsLinearizes | crates/brain-index/src/shared.rs:354-369 | the answer of `contains` was the truth at some instant between its two reads |
| TwoTierSearch.MergeIsTopK | crates/brain-index/src/shared.rs:670-688 | merging each tier's best k is a best k of the overridden union when no override lowers a score |
| TwoTierSearch.HarmlessIsExact | crates/brain-index/src/shared.rs:307-338 | with an exact main, and no live id to rival an entry that overrides a different live vector, search is a best k of the logical view for every scoring and filter |
| TwoTierSearch.ExactIffHarmless | crates/brain-index/src/shared.rs:326-337 | on every state the tiers can be in, search is exact for every scoring, filter and k if and only if no such override has a rival: another live id that is pending or whose main vector is not the override |
| TwoTierSearch.RivalMisleads | crates/brain-index/src/shared.rs:326-337 | one such override with one rival gives a scoring on which the answer is wrong |
| TwoTierSearch.StaleOverrideMisleads | crates/brain-index/src/shared.rs:326-337 | two memories and one pending override on which search is not always exact |
| SharedIndex.MergeDedupeDescending | crates/brain-index/src/shared.rs:670-688 | the two insert loops, sort and truncate return a best k of the collision-resolved map |
| SharedIndex.SharedHnsw.constructor | crates/brain-index/src/shared.rs:280-296 | readers see exactly the index's live nodes |
| SharedIndex.SharedHnsw.InsertVector | crates/brain-index/src/shared.rs:615-638 | the slot loop implements the insert step: one map update for readers |
| SharedIndex.SharedHnsw.MarkTombstoned | crates/brain-index/src/shared.rs:642-653 | likewise one removal |
| SharedIndex.SharedHnsw.Contains | crates/brain-index/src/shared.rs:354-369 | with no writer in between, membership in the logical view |
| SharedIndex.SharedHnsw.StoreMain | crates/brain-index/src/shared.rs:491-497 | the first half: new main, pending untouched, epoch advanced with wrap-around |
| SharedIndex.SharedHnsw.ClearPending | crates/brain-index/src/shared.rs:498-500 | the second half: nothing pending, main untouched |
| SharedIndex.SharedHnsw.Swap | crates/brain-index/src/shared.rs:491-501 | both halves: readers see exactly the new index, nothing pending |
| SharedIndex.SharedHnsw.PublishBuilt | crates/brain-index/src/shared.rs:520-563 | the locked half implements the publish step, keeps every lookup, keeps exactly the overlay ids whose entries the build did not fold as tombstones, and reports counts and epoch |
| SharedIndex.SharedHnsw.FlushWithRebuild | crates/brain-index/src/shared.rs:505-563 | a flush keeps every lookup, drains pending and trims the overlay to the ids no flushed tombstone covers; a failed build changes nothing |
| SharedIndex.SharedHnsw.PendingSearch | crates/brain-index/src/shared.rs:587-609 | the scan returns a best k of the live, filter-passing pending entries |
| SharedIndex.SharedHnsw.MergeAnswer | crates/brain-index/src/shared.rs:326-338 | whatever main answered, a best k of those hits overridden by a best k of the live, filter-passing pending entries; exact when main is and the overrides are harmless |
| SharedIndex.SharedHnsw.Search | crates/brain-index/src/shared.rs:307-338 | end to end over the memory index: on every graph such a merge of hits main holds, the overlay leaves and the filter passes, so `SearchReturnsLive` applies; with an exact graph and harmless overrides, a best k of the logical view |
| SharedIndex.OverlayIsFilter | crates/brain-index/src/shared.rs:307-325 | passing the overlay down as a filter leaves out exactly the overlaid ids |
| Tombstones.WithHas | crates/brain-index/src/tombstones.rs:44-55 | setting a bit leaves every other bit of the word alone |
| Tombstones.WithoutHas | crates/brain-index/src/tombstones.rs:57-69 | clearing a bit leaves every other bit of the word alone |
| Tombstones.OneBitWeighs | crates/brain-index/src/tombstones.rs:44-69 | set and clear add or take away one power of two, or do nothing |
| Tombstones.SetBitAdds | crates/brain-index/src/tombstones.rs:44-55 | setting a clear bit adds exactly that id to the marked set and keeps 64-bit words |
| Tombstones.ClearBitRemoves | crates/brain-index/src/tombstones.rs:57-69 | clearing a set bit removes exactly that id |
| Tombstones.TombstoneBitmap.Set | crates/brain-index/src/tombstones.rs:44-55 | the set of ids gains exactly this one, lazily growing, and the counter stays the number of set bits |
| Tombstones.TombstoneBitmap.ClearOne | crates/brain-index/src/tombstones.rs:57-69 | the set of ids loses exactly this one, counter in step |
| Tombstones.TombstoneBitmap.Clear | crates/brain-index/src/tombstones.rs:72-76 | no id is left, the words stay allocated |
| Tombstones.TombstoneBitmap.IsSet | crates/brain-index/src/tombstones.rs:79-86 | membership in that set, for any id |
| Tombstones.TombstoneBitmap.FromSnapshot | crates/brain-index/src/tombstones.rs:105-113 | the ids are those of the words; the counter is right exactly when the stored one was |
| IdMaps.SnapshotRestoresMaps | crates/brain-index/src/idmap.rs:134-146 | rebuilding from the listed items, in any iteration order, gives back both directions |
| IdMaps.IdMap.Insert | crates/brain-index/src/idmap.rs:88-103 | keeps the two maps inverse; a duplicate or an exhausted counter changes nothing, otherwise the next number is taken |
| IdMaps.IdMap.FromSnapshot | crates/brain-index/src/idmap.rs:134-146 | both maps and the counter are those of the entries |
| IdMaps.IdMap.LookupForward | crates/brain-index/src/idmap.rs:106-108 | the number whose reverse entry is this memory; nothing exactly when no number maps back to it |
| IdMaps.IdMap.LookupReverse | crates/brain-index/src/idmap.rs:111-113 | the memory whose forward entry is this number; nothing exactly when no memory maps to it |
| Escalation.WidenShrinks | crates/brain-index/src/hnsw.rs:135-194 | every unfinished round shrinks a measure built on the raw beam, whenever that is not zero |
| Escalation.ZeroBeamSticks | crates/brain-index/src/statement_question_hnsw.rs:165-225 | a zero beam stays zero, and once the fetch is saturated the round repeats itself |
| Escalation.RoundAsks | crates/brain-index/src/hnsw.rs:135-194 | round n asks for the first fetch doubled n times, up to every node, with the first beam doubled n times, at least the fetch and at most the ceiling, however the loop's own variables saturate |
| MemoryHnsw.ResolveEf | crates/brain-index/src/hnsw.rs:280-284 | a given beam raised to k and cut at the ceiling; without one, at least the default beam, k and k times the factor, as far as the ceiling allows, and no larger than one of them |
| MemoryHnsw.EscalatingSearch | crates/brain-index/src/hnsw.rs:112-194 | stops for every k, beam and filter on validated params; on every graph the answer is the accepted hits of the first round that lists k or can widen no more; lists only live, filter-passing nodes; with an exact graph equals the brute-force scan cut to k |
| MemoryHnsw.RoundSettles | crates/brain-index/src/hnsw.rs:150-190 | enough hits, or a fetch of the whole order, settle the answer |
| MemoryHnsw.ScanIsTopK | crates/brain-index/src/hnsw.rs:112-194 | with true distances that scan is a best k of the live, filter-passing nodes |
| MemoryHnsw.HnswIndex.Insert | crates/brain-index/src/hnsw.rs:92-101 | adds exactly one node, or changes nothing on a duplicate or exhausted map |
| MemoryHnsw.HnswIndex.MarkTombstoned | crates/brain-index/src/hnsw.rs:210-219 | kills exactly that memory; unknown ids are reported and change nothing |
| MemoryHnsw.HnswIndex.Search | crates/brain-index/src/hnsw.rs:112-194 | the same of the stored index: on every graph the hits of that round, only live nodes passing the filter; with an exact graph a best k of the index read as a published main |
| Collapse.CollapseHits | crates/brain-index/src/hype_hnsw.rs:180-205 | the fold into a map computes each target's best over the fetched live points |
| Collapse.BestIsMax | crates/brain-index/src/hype_hnsw.rs:180-205 | that best is the largest similarity of the target's live points, and no other target appears |
| Collapse.PrefixIsFinal | crates/brain-index/src/statement_question_hnsw.rs:165-233 | in distance order later points change no target found and beat none |
| Collapse.PrefixTopK | crates/brain-index/src/statement_question_hnsw.rs:165-233 | a best k over an early fetch is final if and only if it found k targets, or all there are |
| Collapse.BestIsCurrent | crates/brain-index/src/hype_hnsw.rs:153-227 | over an order that lists each stored point once at its true distance, the collapsed map holds exactly the targets that own a live point, each with the best score of its own vectors |
| StatementQuestions.WideBeamStops | crates/brain-index/src/statement_question_hnsw.rs:144-233 | a beam of at least 1 stops on every graph |
| StatementQuestions.TerminationIff | crates/brain-index/src/statement_question_hnsw.rs:144-233 | with an exact graph the search stops if and only if the beam is not 0, or the pool fills the ceiling, or it holds k live targets |
| StatementQuestions.ZeroOverrideLoops | crates/brain-index/src/statement_question_hnsw.rs:165-225 | one stored point, k = 2 and a beam override of 0 never stop |
| StatementQuestions.SearchWithEf | crates/brain-index/src/statement_question_hnsw.rs:144-233 | wherever the loop stops: rejects exactly the oversized overrides; on every graph a best k of the targets found by the first round that finds k or can widen no more, at most k distinct (statement, slot) in descending order; with an exact graph a best k of the stored points, each (statement, slot) scored by the best of its own live vectors |
| Hype.RunIsSinceLastReset | crates/brain-index/src/hype_hnsw.rs:125-323 | after any run a memory holds the batch of its last refresh, nothing after its last tombstone, or its rows of the last rebuild in row order, and then exactly what was inserted since |
| Hype.RunWithoutReset | crates/brain-index/src/hype_hnsw.rs:125-135 | with none of those, every vector ever inserted |
| Hype.HypeHnswIndex.InsertPoint | crates/brain-index/src/hype_hnsw.rs:125-135 | that memory holds its vectors and this one after them, no other memory touched |
| Hype.HypeHnswIndex.MarkMemoryTombstoned | crates/brain-index/src/hype_hnsw.rs:256-262 | that memory has no live vector left, no other memory touched |
| Hype.HypeHnswIndex.RefreshMemory | crates/brain-index/src/hype_hnsw.rs:232-252 | that memory holds exactly the new batch, in order, no other memory touched |
| Hype.HypeHnswIndex.RebuildFrom | crates/brain-index/src/hype_hnsw.rs:301-323 | every memory holds exactly the vectors of its rows, each once and in row order; counts the rows |
| Hype.HypeHnswIndex.SearchWithEf | crates/brain-index/src/hype_hnsw.rs:153-227 | rejects exactly the oversized overrides; on every graph one fetch of 8k points, or all there are, with the beam asked for, collapsed per memory and cut to a best k; with an exact graph only memories with a live vector appear, each score is the best over that memory's own vectors and nothing better is left out; a best k if and only if k memories, or all that are live, have a live point among those fetched |
| Hype.EightDeadHideOne | crates/brain-index/src/hype_hnsw.rs:163-205 | eight nearer tombstoned points hide the one live memory from a search for one |
| Codec.LeRoundTrip | crates/brain-index/src/persistence.rs:320-344 | little-endian fields read back what was written |
| Codec.LeByte | crates/brain-index/src/persistence.rs:320-344 | byte i of a little-endian field is the digit of weight 256^i |
| Codec.BeRoundTrip | crates/brain-index/src/persistence.rs:238-243 | so do big-endian memory ids |
| Codec.BeByte | crates/brain-index/src/persistence.rs:238-243 | byte i of a big-endian one is the digit of weight 256^(width - 1 - i) |
| Codec.BodyLayout | crates/brain-index/src/persistence.rs:226-269 | where every entry, word, count and hash of a body lies, byte for byte |
| Codec.ReadBodyExact | crates/brain-index/src/persistence.rs:283-312 | reading an encoded body returns it and leaves exactly the bytes that followed |
| Codec.ReadBodyCanonical | crates/brain-index/src/persistence.rs:283-312 | whatever the reader consumes is the encoding of what it returns |
| Codec.ParseEncode | crates/brain-index/src/persistence.rs:226-312 | parsing an encoded body gives it back |
| Codec.EncodeParse | crates/brain-index/src/persistence.rs:226-312 | anything that parses re-encodes to the same bytes |
| Codec.ExtensionIsTrailing | crates/brain-index/src/persistence.rs:300-302 | bytes after a valid body are reported and counted |
| Codec.ProperPrefixFails | crates/brain-index/src/persistence.rs:283-312 | every proper prefix of a valid body is reported as truncated, and never reaches the capacity panic |
| Headers.ParseEncodeHeader | crates/brain-index/src/persistence.rs:111-203 | the header is 64 bytes and parses back, for any checksum |
| Headers.HeaderLayout | crates/brain-index/src/persistence.rs:111-203 | what a header parses to by fixed offsets, and in which order a bad magic, version or checksum is reported |
| Headers.EncodeParseHeader | crates/brain-index/src/persistence.rs:111-203 | any 64 bytes that parse are the encoding of what they parse to |
| BodyLoops.Encode | crates/brain-index/src/persistence.rs:226-269 | the append loops write the encoding, which parses back |
| BodyLoops.Parse | crates/brain-index/src/persistence.rs:283-312 | the cursor loops accept a byte string if and only if it is the encoding of some body; a declared word count too large to allocate panics before any word is read |
| Snapshots.RunKeepsInv | crates/brain-index/src/shared.rs:49-112 | over any saves stopped anywhere, the wrapper file is a prefix of one save's wrapper and the history is complete |
| Snapshots.WholeWrapperLoads | crates/brain-index/src/shared.rs:125-200 | a whole wrapper loads to its own save, or fails on the shard id or a sibling file |
| Snapshots.CutWrapperFails | crates/brain-index/src/shared.rs:125-200 | a wrapper cut anywhere is rejected for its footer, its size, its shard or a truncated body, never loaded and never a panic, with no assumption on hashes |
| Snapshots.LoadedIsWrapper | crates/brain-index/src/shared.rs:125-200 | whatever loads is a whole wrapper: the encoding of a header of this shard, the encoding of a body, and the digest of the two, and the sibling files were checked against that body |
| Snapshots.AlteredWrapperFails | crates/brain-index/src/shared.rs:125-200 | a wrapper changed anywhere before its footer loads only if the footer digests of the two collide |
| Snapshots.LoadIsAuthors | crates/brain-index/src/shared.rs:49-200 | a load that succeeds returns the save whose wrapper was written last |
| Snapshots.LoadIsOneSave | crates/brain-index/src/shared.rs:49-200 | after any sequence of saves, each stopped at any step with torn files, a load fails or returns exactly one save's id map, tombstones and LSN with that save's own graph and data |
| Snapshots.FinishedSaveLoads | crates/brain-index/src/shared.rs:49-200 | a save that ran to the end loads back as itself |
| Snapshots.NextSaveLoads | crates/brain-index/src/shared.rs:49-200 | whatever earlier saves left behind, a save that is left alone goes through and loads back as itself |
| Cascade.ForgetStores | crates/brain-metadata/src/cascade.rs:235-375 | a forget stores exactly the surviving entries, inline exactly when they fit, leaves no unreferenced overflow row and takes no new overflow id |
| Cascade.WithoutSplits | crates/brain-metadata/src/cascade.rs:179-186 | the surviving entries keep their order |
| Cascade.RevertStores | crates/brain-metadata/src/cascade.rs:861-926 | a revert stores those entries and the dropped one after them, unless it is back already, same storage rule; an overflow row goes under the current id, else under the recorded one |
| Cascade.ForgetJournals | crates/brain-metadata/src/cascade.rs:393-475 | a soft forget drops the reverse row and records exactly its first entry, the prior currency and overflow id, and the outcome: evidence left, tombstoned, or kept under a threshold that is not positive |
| Cascade.HardForgetIsSilent | crates/brain-metadata/src/cascade.rs:393-475 | a hard forget is a soft one that leaves no record |
| Cascade.ForgetKeepsIndexIff | crates/brain-metadata/src/cascade.rs:356-385 | the predicate index stays exact if and only if the row is current or its bucket does not move |
| Cascade.RevertKeepsIndexIff | crates/brain-metadata/src/cascade.rs:927-992 | likewise for a revert: exactly when the row comes back current, stays dead for another reason, or is live and current or does not move |
| Cascade.SupersededRunLeaks | crates/brain-metadata/src/cascade.rs:356-992 | over every run a superseded statement has no predicate row exactly while every event left its bucket alone, and from then on its bucket's row and at most one left-over |
| Cascade.RunIsIndexedIff | crates/brain-metadata/src/cascade.rs:356-992 | after a run the predicate index is exact if and only if the statement is current or the run so far was of that kind |
| Cascade.SupersededLeaks | crates/brain-metadata/src/cascade.rs:356-385 | a superseded statement losing its only evidence ends tombstoned yet indexed |
| Cascade.RunTracks | crates/brain-metadata/src/cascade.rs:113-992 | over every run of drained soft forgets and reverts, the evidence is the original less the forgotten memories, the statement is tombstoned exactly when that is empty and the threshold is positive, and reverse rows, undo rows, storage, by-subject rows and (if current) predicate rows agree; a dead statement is not queued for embedding |
| Cascade.RunIsScored | crates/brain-metadata/src/cascade.rs:113-992 | over the same runs the confidence is the aggregate of the evidence at the clock of the last event that changed it, zero when there is none, and untouched before the first; scope, subject, predicate and kind never change |
| Cascade.OtherReasonStaysDead | crates/brain-metadata/src/cascade.rs:927-974 | a statement deleted for another reason is never brought back or put into an index by any run |
| Cascade.ForgetKeepsSubject | crates/brain-metadata/src/statement/tombstone.rs:48-81 | the tombstone moves the by-subject row to the non-current bit and empties the queue slot; nothing else moves them |
| Cascade.RevertKeepsSubject | crates/brain-metadata/src/cascade.rs:927-974 | a revert that clears the tombstone moves it back if the row was current, and queues the statement for embedding again |
| Cascade.PendingIsListedIff | crates/brain-metadata/src/statement/tombstone.rs:48-61 | over every run a statement with an unresolved subject has a by-subject row if and only if it was current and its evidence was once all forgotten |
| Cascade.PendingGainsRow | crates/brain-metadata/src/statement/tombstone.rs:48-61 | one forget puts such a statement into the by-subject index |
| Cascade.RevertedRunRestores | crates/brain-metadata/src/cascade.rs:788-992 | taking everything back, in any order, restores evidence, flags and index rows |
| RelationCascade.RunTracks | crates/brain-metadata/src/cascade.rs:598-1053 | over the same runs, superseded relations included: the list, the reverse rows and the undo records follow the forgotten memories, and the relation is tombstoned exactly while one of them holds its TOMBSTONED record or, once superseded, from the first time all its evidence was gone |
| RelationCascade.RevertedRunRestoresIff | crates/brain-metadata/src/cascade.rs:998-1053 | taking everything back, in any order, restores list, reverse rows and records, and restores the flags if and only if the relation is not superseded or no prefix of the run forgot all its evidence |
| RelationCascade.SupersededIsNotRestored | crates/brain-metadata/src/cascade.rs:1034-1044 | a live superseded relation forgotten and taken back ends tombstoned with no record left |
| RelationCascade.SupersededStaysTombstoned | crates/brain-metadata/src/cascade.rs:1034-1044 | a superseded, tombstoned relation stays tombstoned through every run |
| RelationCascade.ForgetThenRevert | crates/brain-metadata/src/cascade.rs:598-1053 | a forget taken straight back moves the memory to the end of the list, unless it was the only one, and changes nothing else; the record between keeps the prior currency and whether it tombstoned |
| RelationCascade.RetainSplits | crates/brain-metadata/src/cascade.rs:649-671 | the evidence a relation keeps keeps its order |
| RelationCascade.HardForgetIsSilent | crates/brain-metadata/src/cascade.rs:598-716 | a hard forget of a relation is a soft one that leaves no record |
| RelationCascade.DeletedStaysDead | crates/brain-metadata/src/cascade.rs:1034-1044 | a relation deleted by hand stays deleted through every run |
| CascadeTables.TrackedAgrees | crates/brain-metadata/src/cascade.rs:211-385 | in the flat tables: an overflow row exactly where one is referenced, inline exactly when it fits, reverse rows exactly the evidence, the predicate row exactly the live row's bucket, the by-subject row exactly the current bit, no queue row for a dead one |
| CascadeBatches.ForgottenIsDone | crates/brain-metadata/src/cascade.rs:134-194 | a forgotten statement is not affected again, whatever state its tables were in |
| CascadeBatches.BatchShrinks | crates/brain-metadata/src/cascade.rs:129-194 | a batch takes exactly its statements off the affected set |
| CascadeBatches.BatchesMerge | crates/brain-metadata/src/cascade.rs:129-194 | two batches amount to one |
| CascadeBatches.DrainedForgetIsApply | crates/brain-metadata/src/cascade.rs:113-388 | to each statement a drained soft forget is the forget event of a run |
| CascadeBatches.DrainedRevertIsApply | crates/brain-metadata/src/cascade.rs:788-836 | to each statement a drained revert is the revert event of a run |
| CascadeBatches.DrainedRevertIsIdle | crates/brain-metadata/src/cascade.rs:788-836 | once drained, any further revert of the memory changes no statement |
| CascadeStore.StatementStore.Scan | crates/brain-metadata/src/cascade.rs:129-194 | collects distinct affected statements with their snapshots: all of them, or exactly max(cap, 1) |
| CascadeStore.StatementStore.RekeyOne | crates/brain-metadata/src/statement/crud.rs:631-668 | moves one predicate row between buckets, or nothing when the bucket is the same |
| CascadeStore.StatementStore.FlipSubject | crates/brain-metadata/src/statement/crud.rs:699-799 | removes the by-subject row under the other bit and inserts the one under this |
| CascadeStore.StatementStore.TombstoneOne | crates/brain-metadata/src/statement/tombstone.rs:16-81 | marks the row dead, drops its predicate row and flips its by-subject row if it was current, and leaves the embed queue, once |
| CascadeStore.Tally | crates/brain-metadata/src/cascade.rs:235-388 | the counters are the numbers of the batch's statements that, once forgotten, still have evidence, have none and live, or are tombstoned |
| CascadeStore.StatementStore.ForgetBatch | crates/brain-metadata/src/cascade.rs:113-388 | four passes over the whole batch come to forgetting each of its statements on its own, with the counters to match; no other row changes, rows of absent statements included |
| CascadeStore.StatementStore.DrainForget | crates/brain-metadata/src/cascade.rs:113-388 | draining with any caps terminates and ends where one unbounded pass would; rows of absent statements stay as they were |
| CascadeStore.StatementStore.RevertOne | crates/brain-metadata/src/cascade.rs:817-992 | one undo row restores its statement, or only disappears when the statement is gone |
| CascadeRevert.RelationStore.Forget | crates/brain-metadata/src/cascade.rs:598-716 | every relation with a reverse row in the scope is forgotten on its own, stale rows are dropped, no other relation changes |
| CascadeRevert.RelationStore.RevertOne | crates/brain-metadata/src/cascade.rs:998-1053 | one undo row restores its relation, or only disappears |
| CascadeRevert.Pick | crates/brain-metadata/src/cascade.rs:797-815 | all undo rows of the memory, or exactly max(cap, 1) |
| CascadeRevert.ReplayMerges | crates/brain-metadata/src/cascade.rs:788-836 | replaying two sets of undo rows one after the other amounts to replaying both |
| CascadeRevert.RevertBatch | crates/brain-metadata/src/cascade.rs:788-836 | replays and deletes exactly the picked rows of both kinds |
| CascadeRevert.DrainRevert | crates/brain-metadata/src/cascade.rs:788-836 | draining with any caps terminates, leaves no undo row of the memory, and ends where one unbounded pass would |
| CascadeRuns.ForgetIsApply | crates/brain-metadata/src/cascade.rs:598-716 | to every relation a forget is the forget event of a run if the memory is of its scope, and nothing otherwise |
| CascadeRuns.RevertIsApply | crates/brain-metadata/src/cascade.rs:788-836 | to each relation a drained revert is the revert event of a run |
| CascadeRuns.DrainedRelationsAreIdle | crates/brain-metadata/src/cascade.rs:788-836 | once drained, no undo row of the memory is left and any further revert changes no relation |
| CascadeRuns.RunEvents | crates/brain-metadata/src/cascade.rs:113-1053 | any sequence of drained forgets and reverts over both stores, with any caps, is to each statement its own run of the events and to each relation its own run of those that reach it |
| CascadeRuns.RunCascade | crates/brain-metadata/src/cascade.rs:113-1053 | so afterwards every statement that started intact has the run's evidence, confidence, tombstone and records and agrees with all its tables, and every relation that started intact has its run's |
| Names.RunsAreMaximal | crates/brain-extractors/src/resolver.rs:1648-1655 | the name is its runs woven with digit-free gaps, the inner ones non-empty: the runs are all the digits, in order, and maximal |
| Names.DigitRunsAreJoined | crates/brain-extractors/src/resolver.rs:1648-1655 | the runs of a name, token by token, are those of its tokens joined by spaces |
| Resolver.DecidesInScope | crates/brain-extractors/src/resolver.rs:998-1423 | whatever a call resolves or aliases is in the caller's scope, and of its type except across types |
| Resolver.EffectKeepsConsistent | crates/brain-metadata/src/entity/ops.rs:931-1010 | every outcome keeps the canonical and alias indexes consistent with the entity rows |
| ResolverTiers.DecidesIffDue | crates/brain-extractors/src/resolver.rs:998-1423 | the tiers decide a call if and only if a definition over the raw rows, names, scores, hits and verdicts calls for that outcome |
| ResolverTiers.HitsAgree | crates/brain-extractors/src/resolver.rs:1272-1423 | the same for the embedding tier and the verdicts alone |
| ResolverTiers.CloseHitIsResolved | crates/brain-extractors/src/resolver.rs:1272-1370 | when the other tiers are silent, a nearest hit at or above the threshold with the same numbers and no rejection is resolved to, never minted again |
| ResolverRuns.AnswersStand | crates/brain-extractors/src/resolver.rs:998-1519 | no call changes what any answered key resolves to |
| ResolverRuns.CallAnswersItself | crates/brain-extractors/src/resolver.rs:998-1519 | a call leaves its own key answered by what it returned, whichever tier decided |
| ResolverRuns.SameKeySameEntity | crates/brain-extractors/src/resolver.rs:966-1519 | over every run, two calls with the same scope, type and normalized surface return the same entity, and the later one writes no new alias onto another |
| ResolverRuns.OnlyPartialMatchesSkipDigits | crates/brain-extractors/src/resolver.rs:1049-1061 | every tier but the confirmed partial match compares digit runs before it aliases |
| ResolverRuns.MergesIffAliasesAcross | crates/brain-extractors/src/resolver.rs:1272-1423 | the inputs on which a call aliases across differing digit runs: every earlier tier silent, the first typed hit between the floor and the threshold, confirmed, and differing |
| ResolverRuns.DigitSafeIff | crates/brain-extractors/src/resolver.rs:1376-1402 | a call keeps "aliases have the canonical name's digit runs" if and only if its inputs are not of that kind |
| ResolverRuns.RunIsDigitSafeIff | crates/brain-extractors/src/resolver.rs:966-1519 | over every run that holds if and only if no call so far was of that kind: nothing repairs it |
| ResolverRuns.RunAnswersHaveDigits | crates/brain-extractors/src/resolver.rs:966-1519 | over every run without such a call, each answer's canonical name has the surface's digit runs |
| ResolverRuns.ConfirmedPartialMergesNumbers | crates/brain-extractors/src/resolver.rs:1376-1402 | a confirmed partial match does merge names whose digit runs differ |
| ResolverRuns.VersionsMerge | crates/brain-extractors/src/resolver.rs:1376-1402 | "v1" and "v2" are such names |
| ResolverPasses.Least | crates/brain-extractors/src/resolver.rs:1007-1020 | the smallest of several aliased entities |
| ResolverPasses.FilterCandidates | crates/brain-extractors/src/resolver.rs:1049-1061 | exactly the trigram hits of the scope and type with the same digit runs |
| ResolverPasses.BestFuzzy | crates/brain-extractors/src/resolver.rs:1062-1089 | a highest-scoring candidate at or above the threshold, if there is one |
| ResolverPasses.OnlyMatch | crates/brain-extractors/src/resolver.rs:1106-1137 | the one candidate that passes, and nothing when none or several do |
| ResolverPasses.NicknameIsFree | crates/brain-extractors/src/resolver.rs:1676-1710 | no stored name of the entity is another fuller form of the nickname |
| ResolverPasses.AbsorbingNickname | crates/brain-extractors/src/resolver.rs:1202-1270 | the only nickname candidate, if it is free |
| ResolverPasses.FirstTypedHit | crates/brain-extractors/src/resolver.rs:1587-1621 | the first hit whose row has the caller's scope and type |
| ResolverPasses.ProbeEmbedding | crates/brain-extractors/src/resolver.rs:1272-1423 | the nearest hit of the caller's scope and type decides: at or above the threshold with the same numbers it is aliased unless rejected, between the floor and the threshold aliased if confirmed and proposed unless rejected, and otherwise a new entity is made |
| ResolverPasses.Decide | crates/brain-extractors/src/resolver.rs:998-1423 | decides exactly what the inputs call for: each tier speaks only when every earlier one is silent |
| ResolverPasses.FlushPublishes | crates/brain-extractors/src/resolver.rs:621-642 | publishing keeps ids unique, drops none, adds only staged ones and misses only failed inserts |
| ResolverPasses.Shard.Resolve | crates/brain-extractors/src/resolver.rs:966-1519 | decides as the inputs call for and writes as specified inside the pass, stages what it minted, files its merge proposal, fails exactly on an empty name; committed rows and index untouched |
| ResolverPasses.Shard.Commit | crates/brain-extractors/src/resolver.rs:594-662 | afterwards every id in the index has a committed row and appears once |
| ResolverPasses.Shard.Rollback | crates/brain-extractors/src/resolver.rs:548-563 | committed rows, queue and index are unchanged, nothing stays staged, and ids the pass drew are not drawn again |
| ShardRuns.KeptAnswerStands | crates/brain-extractors/src/resolver.rs:548-662 | over every run of passes, two calls with the same key return the same entity whatever passes were rolled back in between, unless the first call's own was |
| ShardRuns.MintedIsReturnedIffKept | crates/brain-extractors/src/resolver.rs:548-662 | an entity the first call minted is returned by the second if and only if the pass that minted it was not rolled back in between |
| ShardRuns.ServeAll | crates/brain-extractors/src/resolver.rs:548-662 | the shard's answers to any requests are such a run's, so calls with the same key agree |
| BrokerGate.BrokerResolver.GateDecision | crates/brain-llm/src/broker.rs:331-368 | a lone call is the look, then the re-check if a probe is due |
| BrokerGate.BrokerResolver.RecheckProbe | crates/brain-llm/src/broker.rs:354-368 | stamps and admits exactly when the probe is still due, refuses when there is still no key and it is not |
| BrokerGate.BrokerResolver.Fetch | crates/brain-llm/src/broker.rs:403-500 | stores exactly a key of a known provider or word that there is none; on anything else the credential is unavailable and the cache is left alone |
| BrokerGate.EveryAnswerIsDue | crates/brain-llm/src/broker.rs:296-368 | over any interleaving of callers and fetches, every answer the gate ever gave is the one the fetches and probes before it call for: allowed exactly on a fresh key, refused exactly inside the negative window within an interval of the last store or probe, sent to the write lock exactly when that interval is over, and there refused exactly when a rival was faster |
| BrokerGate.AdmissionsAreRationed | crates/brain-llm/src/broker.rs:331-368 | however looks, re-checks and fetches interleave, the writes let through since the broker last had no key, times the probe interval, never exceed the time since then |
| BrokerGate.DueCallIsAdmitted | crates/brain-llm/src/broker.rs:331-368 | a call that looks inside the negative window, an interval after the last store or probe, is let through at its re-check and its stamp is the next mark, whatever ran in between, unless an answer for that namespace came or a rival took the probe |
| BrokerGate.RivalIsRefused | crates/brain-llm/src/broker.rs:354-368 | a caller waiting for the write lock whose namespace was stored or probed less than an interval ago is refused and leaves no stamp |
| BrokerGate.CachedIffRecent | crates/brain-llm/src/broker.rs:296-304 | over any run a cached value is handed out exactly when it is the last definite answer fetched for the namespace and younger than the lifetime of its kind |
| BrokerGate.UnavailableIsInvisible | crates/brain-llm/src/broker.rs:403-500 | deleting every fetch that learned nothing from any run leaves every answer, the waiting callers and the cache as they were |

## Left out

- Graph construction, recall and floating-point rounding or NaN of the vector graph library.
- The entity and statement vector indexes, which repeat the memory index's loop without a filter.
- Point insertion, tombstoning and rebuild of the statement-question index, which repeat HyPE's with a statement as owner.
- StatementQuestions.SearchWithEf: says nothing where the loop never stops, which `TerminationIff` pins down; only a beam override of 0 can do that.
- StatementQuestions.SearchWithEf: does not model the tie-break by id and slot in the final sort, nor does Hype.HypeHnswIndex.SearchWithEf; ties are open.
- SharedIndex.SharedHnsw.Swap: runs its halves back to back; readers and writers between them are `TwoTier.SwapIsAtomicIff` and `TwoTier.SwapLosesGapWrites`.
- The saved index parameters, which a load replaces by defaults, and the graph library's own reload of the two files.
- A save that stops leaves a prefix of its wrapper; other damage to the file is only `AlteredWrapperFails`, which rests on the footer's 8 bytes not colliding.
- BodyLoops.Parse: does not model an allocation that the machine refuses below the largest size the language allows.
- The cascade's timestamps, grace expiry, the prior confidence and tombstone reason of an undo record (which the revert never reads), the counters of rows scanned, of the relation forget and of the revert, its sweep of untyped edges, and the worker that drains the embed queue.
- Supersession or other writers interleaved with forgets and reverts.
- The vocative stripping, name normalization, trigram and embedding functions of the resolver, type interning, merge-proposal processing, and how index and staged hits are combined; a call receives the normalized name and the combined hits.
- Verdicts come from a table; that a confirmed verdict names its own candidate is taken from `resolver.rs:745-762`.
- HTTP, runtimes, locks as such, URL and client building.
