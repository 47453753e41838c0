# Verified model of the tender analysis pipeline

The repository reads tender packages with a paid language model and may publish only what its own deterministic code can
tie to the PDF text. This project models that deterministic code in Dafny and proves what it promises. Nothing here runs
the program; `dafny verify dfyconfig.toml` checks everything.

**Amendment reconciliation.** An array union-find groups versioned facts by topic key and alias, and a fold over amendment
stages decides which facts are active, superseded or conflicted. The result is given declaratively for the *set* of facts
(`ReconcileFacts.Outcome`), the loops are proved against it, and what it means is stated on the fields of the facts alone. Modules
`Facts`, `UnionFind`, `Grouping`, `Lifecycle`, `Reconciliation`, `ReconcileFacts`, `ReconcileProperties`.

**Paid extraction.** Prices are counted in quarter micro-USD, since 0.75 and 4.5 are 3/4 and 18/4. A telescoping bound shows
that after an accepted preflight no later dispatch or success settlement is refused, and every settlement has its exact amount. Modules `Pricing`, `PaidLedger`.

**Run protocol.** One row is changed by many workers through guarded updates and a compare-and-set on the whole row. Workers
may stall at every await, clocks are arbitrary and acknowledgements may be lost. `RunRow` has the guarded updates, `RunProtocol`
the transition system and its safety theorems over all runs, `RunStore` the imperative store with its retry loops.

**Ownership and adjudication.** Pages are tiled into cores of 2,700 units with a halo of 250, every core becomes a coverage unit,
and the model's answer about submission channels is verified unit by unit. Modules `Ownership`, `SubmissionLedger`,
`LedgerProperties`, `LedgerFields`, `Adjudication`, `AdjudicationLoop`, `AdjudicationProperties`, `SubmissionChannel`.

**Record authority.** A producer judges every model record, joins equal records of different batches and seals a manifest; an
independent checker recomputes it. `AuthorityInputs.ProducedPassesForInputs` states exactly when the producer meets the checker,
for every input. Modules `Groups`, `CanonicalMerge`, `FieldMerge`, `RecordAuthority`, `AuthorityRecords`, `CitationLocation`,
`AuthorityManifest`, `AuthorityJoins`, `AuthorityBookkeeping`, `AuthorityTheorem`, `AuthorityCorollaries`, `AuthorityDraft`,
`AuthorityInputs`, `AuthorityVerdicts`, `AuthorityVeto`, `AuthorityChecks`, `AuthorityExample`.

**Text alignment.** UTF-16 texts are normalized into units that remember their raw range; quotes are searched up to white-space
runs and split words, and mapped to one range of one page; long texts are cut into overlapping fragments. Modules `Alignment`,
`AlignmentLocality`, `AlignmentIdempotence`, `SpanMatching`, `QuoteSearch`, `IssuedQuotes`, `SpanResolution`, `SourceQuotes`,
`SplitText`, `FragmentRepair`.

**Canonical serialization.** `stableJson` is injective up to key order. Modules `StableJson`, `JsonPrefix`, `JsonInjective`,
`JsonCanonical`.

`Sorting` holds the list operations the code takes from its standard library, `Texts` the UTF-16 texts.

## What the proofs found

- *Producer against checker.* When the members of a joined record have different relevances, not all are located, and one of them
  disagrees, the producer leaves the crosscheck undecided (`src/lib/analysis/record-authority.ts:1616-1621`) where the checker
  expects a disagreement (`:582-589`), so a complete manifest fails its own integrity check. The same holds when an origin
  without relevance is joined with one that has one. `AuthorityJoins.JoinMeetsChecks` gives the exact condition and
  `AuthorityExample.ConflictingAnnotationsFail` a concrete input.
- *Merged identifiers* can collide when a model-authored identifier, which may hold any characters, already is what an ambiguous
  one is renamed to (`CanonicalMerge.MergedIdsMayCollide`). When no two digests begin alike this is the only way
  (`CanonicalMerge.MergedIdsDifferUnlessTaken`), and the checker then rejects the manifest (`AuthorityInputs.DistinctBatchesPassExactly`).
- *Canonical serialization* sorts keys with a locale comparison. Keys that it cannot tell apart would keep their insertion order
  (`JsonCanonical.TiedKeysKeepOrder`); the keys of the record schemas are plain ASCII words.
- *The multi-batch estimate* is called a tight upper bound in `src/lib/providers/openai.ts:454-462`. Because prices are multiples of a
  quarter, it can be reached for up to four batches and for no more (`Pricing.TightExactly`).
- *The re-normalization test* of a located slice succeeds exactly when the boundary guard before it passes, so it is redundant.
- *The last two conjuncts of completeness* in the adjudication (counts of candidates and fragments) follow from the absence of
  reasons, and so does the final sweep for candidates without a record.
- *Halo and overlap* keep spans of up to 501 units whole, one more than the longest quote, and no longer ones.
- *A lost answer.* A write whose acknowledgement is lost may have been committed, and the caller of `update` cannot tell: the
  contract of `RunStore.NeonRunStore.Update` states what each outcome leaves open.

## Model

| member | source | states |
|---|---|---|
| `Facts.FactOrderIsStrict` | src/lib/analysis/reconciliation.ts:661-679 | On facts with distinct ids the comparator (amendment number, label, document digest, id) is a strict total order, so every group has one sorted form. |
| `Facts.StageLessTransitive` | src/lib/analysis/reconciliation.ts:661-685 | "Same stage" and "earlier stage" compose: a fact of the same stage may be exchanged in every comparison of stages. |
| `UnionFind.HalvingKeepsRoot` | src/lib/analysis/reconciliation.ts:689-695 | Path halving changes the root of no index. |
| `UnionFind.JoinMergesRoots` | src/lib/analysis/reconciliation.ts:696-700 | Linking the larger root to the smaller one merges exactly those two classes. |
| `UnionFind.Root` | src/lib/analysis/reconciliation.ts:689-695 | Finding a root terminates because no parent exceeds its index, returns the root, and keeps all roots while it halves paths in place. |
| `UnionFind.Join` | src/lib/analysis/reconciliation.ts:696-700 | After a join two indexes are together exactly if they were together before or the new link bridges their classes. |
| `Grouping.JoinByKey` | src/lib/analysis/reconciliation.ts:702-710 | After the first pass all facts with one topic key are together, and nothing is together without a chain of links. |
| `Grouping.JoinByAlias` | src/lib/analysis/reconciliation.ts:711-715 | After the double loop every aliased pair is together, still only along chains. |
| `Grouping.RootsExact` | src/lib/analysis/reconciliation.ts:687-715 | Two facts have one root if and only if a chain of equal keys and aliases connects them. |
| `Grouping.GroupedFacts` | src/lib/analysis/reconciliation.ts:687-724 | The groups hold every input fact exactly once and are exactly the connected components. |
| `Lifecycle.ConflictIffEmitted` | src/lib/analysis/reconciliation.ts:852-875 | A group emits a conflict if and only if it ends with a conflicted fact. |
| `Lifecycle.StageMatesConflicted` | src/lib/analysis/reconciliation.ts:797-835 | Whoever shares a stage with a surviving fact in conflict, as a candidate, survives and is in conflict as well. |
| `Lifecycle.EmittedCandidatesConflicted` | src/lib/analysis/reconciliation.ts:825-872 | Every fact that an emitted conflict names is itself finally conflicted. |
| `Lifecycle.SurvivorsStep` | src/lib/analysis/reconciliation.ts:797-808 | One more stage removes all survivors if it replaces or deletes with authority, and otherwise only adds its candidates. |
| `Lifecycle.StagedStatusStep` | src/lib/analysis/reconciliation.ts:803-850 | How one more stage changes the status of every earlier fact and fixes the status of its own. |
| `Lifecycle.LatestStep` | src/lib/analysis/reconciliation.ts:808-835 | The conflict that the fold keeps is the one of the last surviving stage in conflict, and a replacing stage clears it. |
| `Reconciliation.CurrentIffConflicted` | src/lib/analysis/reconciliation.ts:788-876 | Throughout the fold the current conflict is present if and only if some active fact is conflicted. |
| `Reconciliation.TakeStage` | src/lib/analysis/reconciliation.ts:790-796 | The cursor advances over exactly the facts of one stage; everything after it belongs to later stages. |
| `Reconciliation.SupersedeActive` | src/lib/analysis/reconciliation.ts:799-808 | A replacing stage supersedes every active fact and clears the conflict; otherwise neither changes. |
| `Reconciliation.AddStage` | src/lib/analysis/reconciliation.ts:810-850 | The candidates of a stage become active or conflicted together, and the rest of the stage becomes history. |
| `Reconciliation.ApplyStage` | src/lib/analysis/reconciliation.ts:797-851 | One iteration of the fold keeps the invariant that ties active facts, current conflict and recorded statuses to the declarative lifecycle of the stages seen. |
| `Reconciliation.FinishGroup` | src/lib/analysis/reconciliation.ts:852-875 | The check across stages, and the decision to emit, leave every fact with its declarative final status. |
| `Reconciliation.ReconcileGroup` | src/lib/analysis/reconciliation.ts:787-876 | For a whole group, the statuses recorded and the conflict emitted are the declarative ones, and no other fact is touched. |
| `ReconcileFacts.ReconcileVersionedFacts` | src/lib/analysis/reconciliation.ts:775-886 | For distinct ids the result is the exact outcome for the set of input facts: one status for each fact, one conflict for each group in conflict, and exactly the ids of the mutations that are not authorized. What outcomes say about the fields of the facts is stated in `ReconcileProperties`. |
| `ReconcileFacts.ExactLifecycle` | src/lib/analysis/reconciliation.ts:797-850 | A fact is finally active or conflicted if and only if it is verified, not a deletion, not an unauthorized mutation, and no strictly later stage of its group holds a verified authorized replace or delete; otherwise it is superseded. |
| `ReconcileFacts.OrderIndependent` | src/lib/analysis/reconciliation.ts:775-886 | Any permutation of the input gives the same facts with the same statuses and the same multiset of conflicts. |
| `ReconcileFacts.GroupUnique` | src/lib/analysis/reconciliation.ts:786-787 | The sorted group of a fact depends on the set of facts only. |
| `ReconcileFacts.CollectFacts` | src/lib/analysis/reconciliation.ts:878-883 | The facts listed are exactly the input facts with their final statuses, in order of id: no id is lost or invented. |
| `ReconcileFacts.SortConflicts` | src/lib/analysis/reconciliation.ts:883 | The sort keeps exactly the conflicts and lists them in slug order, whatever ties there are. |
| `ReconcileProperties.OvertakesExactly` | src/lib/analysis/reconciliation.ts:661-685 | The comparator puts amendments after all base documents, amendments in the order of their numerals, those without a numeral at the place of the largest safe integer, and ties in the order of their folded labels. |
| `ReconcileProperties.AbreastExactly` | src/lib/analysis/reconciliation.ts:681-685 | Two facts share a stage if and only if neither document overtakes the other. |
| `ReconcileProperties.ListedBeforeExactly` | src/lib/analysis/reconciliation.ts:670-679 | Inside a stage facts are listed by document digest, then by id. |
| `ReconcileProperties.LinkedExactly` | src/lib/analysis/reconciliation.ts:283-307 | Two facts are linked if and only if one key names both, a closed identity or, without one, the fallback key, or they are aliases. |
| `ReconcileProperties.ListingOrder` | src/lib/analysis/reconciliation.ts:881-885 | Facts are listed in the order of their ids, conflicts in the order of the slugs of their keys. |
| `ReconcileProperties.CurrentExactly` | src/lib/analysis/reconciliation.ts:797-850 | A fact ends active or conflicted if and only if each of its citations, of which there is one, is verified, paged and of its own document, it is an addition or an authorized replacement, and no verified and authorized replacement or deletion of its group comes from a document that overtakes its own. |
| `ReconcileProperties.AmendmentsSupersedeBase` | src/lib/analysis/reconciliation.ts:797-808 | An authorized replacement or deletion of an amendment supersedes every base fact of its group. |
| `ReconcileProperties.BaseNeverSupersedes` | src/lib/analysis/reconciliation.ts:797-808 | If only base facts of its group remove anything, a usable amendment fact stays current. |
| `ReconcileProperties.StageDisagreesExactly` | src/lib/analysis/reconciliation.ts:726-761 | The conflict tests in terms of pairs of facts: two different values with one closed identity and a replacement, two different signatures, none empty, with one identity, or two different values of the checklist. |
| `ReconcileProperties.ConflictedExactly` | src/lib/analysis/reconciliation.ts:810-872 | A fact ends conflicted if and only if it is current and either its rivals in the stage disagree, or no current stage of its group disagrees and the current facts of the group do. |
| `ReconcileProperties.ConflictsExactly` | src/lib/analysis/reconciliation.ts:819-876 | The conflicts are exactly the reports of the last current stage of a group that disagrees, or else of all its current facts when they disagree, each with its candidates in listing order and the first fact of its stage. |
| `Pricing.Telescope` | src/lib/providers/openai.ts:454-462 | Splitting the first batch off, with any part of the output tokens, never raises the multi-batch bound. |
| `Pricing.MultiCostBounds` | src/lib/providers/openai.ts:454-462 | The bound covers every way of dividing the output tokens over requests that are each rounded up. |
| `Pricing.TightExactly` | src/lib/providers/openai.ts:454-462 | Requests can cost as much as the bound allows if and only if there are at most four of them, so it is tight only up to four batches. |
| `Pricing.CapExists` | src/lib/providers/openai.ts:779-808 | While the floors of the remaining batches fit, the protected output cap exists and leaves every later floor. |
| `PaidLedger.RunLedger.MarkStarted` | src/lib/runs/paid-cost-ledger.ts:24-45 | A pending commitment is recorded exactly if the attempt is new and the total with the remaining plan fits both limits; otherwise nothing changes. |
| `PaidLedger.RunLedger.Settle` | src/lib/runs/paid-cost-ledger.ts:100-138 | A settlement is recorded exactly if its attempt is pending, replaces only that event, and reports whether the remaining plan still fits. |
| `PaidLedger.TotalExactly` | src/lib/runs/paid-cost-ledger.ts:11-22 | The cost of a run is the sum over its events of the actual amount, or else the estimated one, or nothing. |
| `PaidLedger.SettleLast` | src/lib/runs/paid-cost-ledger.ts:100-138 | Settling the attempt that was marked last replaces exactly that event. |
| `PaidLedger.DispatchFits` | src/lib/providers/openai.ts:1321-1347 | While the plan invariant holds, the maximum of the next batch and the bound for the rest fit the preflight maximum. |
| `PaidLedger.BatchKeepsPlan` | src/lib/providers/openai.ts:1380-1448 | Settling a batch whose usage is missing or within its limits keeps the plan invariant for the next batch. |
| `PaidLedger.SuccessNext` | src/lib/providers/openai.ts:1432-1448 | After such a settlement the ledger fits with the bound for the remaining batches, so the durable check accepts it. |
| `PaidLedger.MarkBatch` | src/lib/providers/openai.ts:1321-1347 | The mark before a dispatch of an admitted plan is never refused. |
| `PaidLedger.SettleSuccess` | src/lib/providers/openai.ts:1432-1448 | The settlement of a success of an admitted plan is never refused. |
| `PaidLedger.SettleFailure` | src/lib/runs/paid-cost-ledger.ts:100-138 | The settlement of a failure is refused only for a response that exceeded its own limits. |
| `PaidLedger.AmountsExactly` | src/lib/providers/openai.ts:506-516 | The amount of a settlement, in tokens and prices: 0.75 for every input and 4.5 for every output token, rounded up, of the reported usage while that is a safe integer and otherwise of the limits of the request; nothing for a request that was never sent. |
| `PaidLedger.AdmissibleExactly` | src/lib/providers/openai.ts:1281-1299 | The preflight admits a plan if and only if every batch fits the context, the input limit and the floors are kept, and the price of all tokens, with one unit for each further batch, fits the reserve. |
| `PaidLedger.Extract` | src/lib/providers/openai.ts:1280-1500 | For every sequence of provider answers: an admitted plan is never refused an output cap, a mark or a success settlement. Each batch gets the output tokens that earlier batches left and later floors allow; each success is recorded at the exact price of its usage, or of its limits, and a completed run costs the sum of these, at most the preflight maximum. A run that fails ends with the first batch that is not done, unmarked or settled as failed at its exact amount, and that settlement is refused if and only if the total exceeds the reservation. |
| `RunRow.EndedForever` | src/lib/runs/state-machine.ts:22-46 | No write of any kind queues or leases an ended run again. |
| `RunRow.PaidMarkerPermanent` | src/db/neon-store.ts:315-352 | Once the paid marker is set it stays, and no other lease or fence than the current one can be held. |
| `RunRow.DispatchClaimPermanent` | src/db/neon-store.ts:377-438 | A dispatch claim disappears only when an expired run is scrubbed. |
| `RunRow.LeaseOnlyByClaim` | src/db/neon-store.ts:315-352 | A lease id enters the row only by its own claim. |
| `RunRow.TransitionsExactly` | src/lib/runs/state-machine.ts:5-44 | Runs advance one place at a time up to ready, may be partial from extraction on, may fail, await cleanup or expire until they have a result, leave a result only for cleanup or expiry, and never leave expiry; results need a confirmed cleanup. |
| `RunRow.GuardsExactly` | src/db/neon-store.ts:203-281 | A whole-row write commits if and only if its claim is in the row, or the lease has expired, and the mutator does not throw; it is the mutated row under the next version. |
| `RunRow.AdmissionMutators` | src/lib/runs/create.ts:200-275 | What the mutators of admission leave: the freed lease, a failed run only while it was queued, and a stranded run only if it is the one that was seen and unpaid. |
| `RunRow.WorkerMutators` | src/lib/pipeline.ts:1099-1127 | What the small mutators of the lease holder leave: a stage, a note, one more watchdog, the paid marker, the confirmation of the cleanup, or a run that awaits its cleanup as failed. |
| `RunRow.FinishMutator` | src/lib/pipeline.ts:1148-1155 | A result needs an allowed transition and a confirmed cleanup, and gives the lease back. |
| `RunRow.FailPipelineMutator` | src/lib/pipeline.ts:1183-1213 | A failed pipeline gives the lease back and leaves a failed run, or one that awaits cleanup and then fails; results and expiry stay. |
| `RunRow.RevokeMutator` | src/lib/runs/expiry.ts:149-185 | The first write of a cleanup takes all leases, moves the fence of a superseded worker, and keeps or sets the time after which it is gone; an expired run stays as it is. |
| `RunRow.UncleanMutator` | src/lib/runs/expiry.ts:205-260 | The last write leaves the run pending as long as something is left to clean, and remembers whether it will be failed or expired. |
| `RunRow.CleanedMutator` | src/lib/runs/expiry.ts:205-260 | Once everything is cleaned the last write ends the run as failed or expired, unless that would fail a run with a result; only an expired run loses its dispatch claim and admission lease. |
| `RunRow.FenceGrows` | src/db/neon-store.ts:315-352 | No write lowers the fence. |
| `RunStore.NeonRunStore.ClaimAdmission` | src/db/neon-store.ts:283-313 | One guarded update: the claim is granted if and only if the committed row is queued, without workflow or dispatch claim, and its admission lease is absent or expired at the given time; then exactly lease, expiry and version change. |
| `RunStore.NeonRunStore.ClaimProcessing` | src/db/neon-store.ts:315-352 | A processing lease is granted if and only if there is no paid marker and no watchdog, and the row is queued, or under a lease that expires at or before the given time; then exactly status, lease, expiry, fence and version change, the fence by one. |
| `RunStore.NeonRunStore.HeartbeatProcessing` | src/db/neon-store.ts:354-375 | Only the holder of the current lease and fence extends the lease. |
| `RunStore.NeonRunStore.ClaimAnalysisDispatch` | src/db/neon-store.ts:377-408 | The permanent dispatch claim is granted if and only if the row is queued, holds the given admission lease and has neither dispatch claim nor workflow; then exactly claim, dispatch status and version change. |
| `RunStore.NeonRunStore.SettleAnalysisDispatch` | src/db/neon-store.ts:410-438 | Settled if and only if the row holds the given dispatch claim and is still dispatching; workflow and status are recorded and the admission lease is freed. |
| `RunStore.NeonRunStore.Update` | src/db/neon-store.ts:203-240 | Five optimistic attempts, with other writers at every await and reads and writes that may lose their answer. A reported success is the only write of this call and the mutation applied atomically to the immediately preceding committed row; a thrown mutator or a conflict means that this call committed nothing, and a conflict that others committed in every attempt or the claim was not held; without an answer it committed at most that one step. |
| `RunStore.NeonRunStore.UpdateIfProcessingLeaseExpired` | src/db/neon-store.ts:242-281 | As above: the row that was overwritten had an expired lease, a refusal names a committed row with a live one, every result but success and a lost answer means that this call committed nothing, and a conflict needs another commit in each of the five attempts. |
| `RunStore.SameVersionSameRow` | src/db/neon-store.ts:216-229 | Two committed rows with one version are one row, which is what makes the comparison of versions sufficient. |
| `RunStore.AdmitQueuedRun` | src/lib/runs/create.ts:87-190 | Scheduling is contacted at most once, and only if this call committed the permanent dispatch claim; with a lost answer to the claim it is not contacted. |
| `RunProtocol.CasIsAtomic` | src/db/neon-store.ts:216-229 | A compare-and-set that matches applies the mutation to the row that is committed now. |
| `RunProtocol.StepKeeps` | src/db/neon-store.ts:203-438 | Every step of every worker keeps the invariant over versions, snapshots, dispatch rights and fences. |
| `RunProtocol.RunsAreLinear` | src/db/neon-store.ts:203-281 | In every reachable state the committed row is the replay of the log of atomic writes: versions are consecutive and no concurrent claim, fence or heartbeat is erased. |
| `RunProtocol.SingleFence` | src/lib/runs/paid-cost-ledger.ts:74-97 | Over all interleavings, every paid attempt that was ever marked was committed under one lease and one fence. |
| `RunProtocol.AtMostOneSchedule` | src/lib/runs/create.ts:133-164 | Over all interleavings, replays, expired leases and lost acknowledgements, a run is scheduled at most once. |
| `RunProtocol.StrandedNeverClaimed` | src/lib/runs/create.ts:243-290 | A run failed as stranded is never claimed for processing afterwards. |
| `RunProtocol.SupersededNeverCommits` | src/db/neon-store.ts:216-229 | Once a lease is superseded, its holder never commits a guarded write or a heartbeat again. |
| `RunProtocol.ExpiryCommitsOnlyExpired` | src/db/neon-store.ts:242-281 | A conditional expiry write commits only over a row whose lease had expired at that version. |
| `RunProtocol.ClaimsTakeOverExpired` | src/db/neon-store.ts:315-352 | Over all runs and interleavings a processing claim is committed only over a queued row, or a leased row whose lease had expired at the time of the claim, without paid marker and watchdog, and it leaves exactly the row of the claimant with the next fence. |
| `RunProtocol.FencesNeverRepeat` | src/db/neon-store.ts:315-352 | Two processing claims of one run never have the same fence, since fences only grow. |
| `Ownership.PageOwnershipCores` | src/lib/analysis/submission-channel.ts:274-294 | The loop builds exactly the cores given by their index; an empty page has one empty core. |
| `Ownership.CoresTile` | src/lib/analysis/submission-channel.ts:412-416 | The tiling test of the discovery loop holds for every page length. |
| `Ownership.OneOwner` | src/lib/analysis/submission-channel.ts:296-301 | A span of a page is owned by exactly one core, whatever its length. |
| `Ownership.OwnerReadsSpan` | src/lib/analysis/submission-channel.ts:274-301 | The owner of a span of up to 501 units has all of it in its context. |
| `Ownership.HaloIsExact` | src/lib/analysis/submission-channel.ts:7-12 | The halo of 250 units suffices for all spans of a size if and only if that size is at most 501; quotes have at most 500. |
| `SubmissionLedger.PageUnits` | src/lib/analysis/submission-channel.ts:386-455 | The units of a page, and whether its mentions are covered; the tiling test never fails. |
| `SubmissionLedger.DocumentUnits` | src/lib/analysis/submission-channel.ts:374-456 | The loop over the ordered pages of one document gives all units and the set of counted page numbers. |
| `SubmissionLedger.DiscoverLedger` | src/lib/analysis/submission-channel.ts:359-503 | The ledger is the deduplicated, sorted list of the units of all pages with its page counts, metadata and capacity flags. |
| `LedgerProperties.CandidateOrigin` | src/lib/analysis/submission-channel.ts:420-456 | Every candidate stands for a core of a page of a document of the package. |
| `LedgerProperties.OneCandidate` | src/lib/analysis/submission-channel.ts:420-459 | With complete metadata, two candidates of one page that own one span are the same candidate, even if a document is listed in two roles. |
| `LedgerProperties.SomeCandidate` | src/lib/analysis/submission-channel.ts:274-301 | For every span of 1 to 501 units on any page some candidate owns it and has it whole in its window. |
| `LedgerProperties.MetadataCoversPages` | src/lib/analysis/submission-channel.ts:378-419 | Complete page metadata implies that every expected page is counted. |
| `LedgerProperties.ShortMentionsCovered` | src/lib/analysis/submission-channel.ts:400-411 | Mentions of up to 501 units never make the ledger exceed its capacity by their position. |
| `LedgerFields.CandidatesAreUnits` | src/lib/analysis/submission-channel.ts:399-462 | Every candidate is a unit of a page of the package: its core of 2,700 units, 250 more on both sides, the text in its window, exactly the mentions with their middle in the core, and its capacity of none on an empty page and of one to ten otherwise. |
| `LedgerFields.UnitsAreCandidates` | src/lib/analysis/submission-channel.ts:399-462 | Every unit of every page has a candidate with its identity. |
| `LedgerFields.DocumentsExactly` | src/lib/analysis/submission-channel.ts:362-365 | Of documents that agree in role, amendment number and digest exactly one stays. |
| `LedgerFields.PagesExactly` | src/lib/analysis/submission-channel.ts:373-383 | The page check holds if and only if the pages are numbered from 1 to the total, each once, in whatever order they are listed. |
| `LedgerFields.AmendmentsExactly` | src/lib/analysis/submission-channel.ts:472-483 | The package check holds if and only if there is one base document, without an amendment number, and the numerals of the amendments are 1 to their count, each once. |
| `LedgerFields.FlagsExactly` | src/lib/analysis/submission-channel.ts:472-503 | The flags of a ledger: metadata is complete if and only if both checks hold, and capacity is exceeded if and only if a mention is not read whole by the unit that holds its middle, there are more than 160 units, or a unit has more than ten mentions. |
| `Adjudication.ValidationExact` | src/lib/analysis/submission-channel.ts:558-629 | A decision is accepted if and only if it satisfies the declarative conditions; the relation has its scope, modality, channel, confidence and offsets, the document, role, amendment and page of its unit, and quote and condition are the page text at its offsets. |
| `Adjudication.RejectionExact` | src/lib/analysis/submission-channel.ts:558-592 | A rejected decision gets the reason of the first condition it misses. |
| `AdjudicationLoop.JudgeUnit` | src/lib/analysis/submission-channel.ts:736-778 | The checks of one coverage unit, with the loops over its relations and spans, give the specified verdict. |
| `AdjudicationLoop.JudgeBatch` | src/lib/analysis/submission-channel.ts:690-781 | One batch updates exactly the records of its candidates, and reports no reason exactly if the batch is clean. |
| `AdjudicationLoop.CleanMeansNoReason` | src/lib/analysis/submission-channel.ts:690-781 | A batch is clean (one faithful untainted answer that covers each candidate once and validly) exactly if transport, stray-unit check and every unit pass. |
| `AdjudicationLoop.CountAssignments` | src/lib/analysis/submission-channel.ts:652-661 | The count of assignments is the multiset of bound ids, and the unknown flag is exact. |
| `AdjudicationLoop.VerifySubmissionAdjudication` | src/lib/analysis/submission-channel.ts:631-825 | The answer is complete if and only if the ledger is non-empty and within capacity, pages and metadata are complete, every candidate is bound once, every response is known and every batch is clean; each record is the verdict of the one batch that binds it. What a verdict carries is stated in `AdjudicationProperties.UnitsCarryDecisions`. |
| `AdjudicationProperties.NoSharedSpan` | src/lib/analysis/submission-channel.ts:759-769 | Over a discovered ledger no two accepted relations, of any units, share document, page and span. |
| `AdjudicationProperties.RelationsAreExact` | src/lib/analysis/submission-channel.ts:558-629 | Every accepted relation quotes at most 500 units of its page exactly, and leaves neither scope, modality nor the channel of the whole bid open. |
| `AdjudicationProperties.UnitsCarryDecisions` | src/lib/analysis/submission-channel.ts:722-785 | Over a discovered ledger a verified record has exactly the decisions of the one unit that answers for its candidate in the one answer to its batch, in their order and with all that they say, about its own page and document; other records have none. |
| `SubmissionChannel.UniqueExactly` | src/lib/analysis/submission-channel.ts:827-899 | A unique channel is reported if and only if the artifact is usable, every positive relation about the whole bid names that channel, one requires it, none forbids it outright, the draft names no other and amendments restate the base. |
| `SubmissionChannel.OutcomesExactly` | src/lib/analysis/submission-channel.ts:827-899 | Each outcome on the fields of the relations: none, multiple, contradicted, possible only, or unique with the first requirement, for a usable artifact without open relations whose amendments repeat the base and a draft that fits; unresolved otherwise. |
| `SubmissionChannel.RestatedExactly` | src/lib/analysis/submission-channel.ts:850-876 | The amendment check: every amendment that speaks for a channel says everything that the base says and nothing else, and requires something. |
| `SubmissionChannel.UniqueNeverSwitches` | src/lib/analysis/submission-channel.ts:873-899 | Enlarging the set of relations can never switch a unique channel to a different one. |
| `SubmissionChannel.OutcomeIgnoresOrder` | src/lib/analysis/submission-channel.ts:842-899 | The outcome depends on the set of relations only. |
| `Groups.Collect` | src/lib/analysis/record-authority.ts:701-704 | Appending to a map of lists gives the groups in the order of first insertion. |
| `Groups.GroupExact` | src/lib/analysis/record-authority.ts:701-704 | A group is exactly the sublist with its key, and not empty. |
| `Groups.GroupsPartition` | src/lib/analysis/record-authority.ts:1595-1604 | Grouping loses and duplicates nothing. |
| `CanonicalMerge.PlanCanonicalRecordMerge` | src/lib/analysis/record-authority.ts:697-732 | The loops over groups, base identifiers and counts give the plan. |
| `CanonicalMerge.MergesExactlyEqualContents` | src/lib/analysis/record-authority.ts:697-732 | Two records are merged together if and only if they differ at most in their public identifier. |
| `CanonicalMerge.ItemExactly` | src/lib/analysis/record-authority.ts:717-731 | A content keeps its base identifier unless another content has the same one; then at most 180 units of it are kept, followed by a tilde and the digest piece. The merged record is that content under the merged identifier. |
| `CanonicalMerge.PlanCounts` | src/lib/analysis/record-authority.ts:701-716 | The plan has one item for each content. |
| `CanonicalMerge.MergeDraftsExactly` | src/lib/providers/openai.ts:1091-1160 | Merging drafts fails if and only if there is none, or more than 1,000 different claims or requirements, 500 risks or 100 rules; otherwise each kind lists its planned records. |
| `FieldMerge.PlanFieldMerge` | src/lib/analysis/record-authority.ts:671-732 | The plan made over the serializations of records given by their fields is, item by item, the plan over contents: the same serialization, identifier and renamed record. |
| `FieldMerge.FieldsMergedExactly` | src/lib/analysis/record-authority.ts:671-732 | Two records are merged together if and only if their fields agree but for the identifier field. |
| `FieldMerge.WithIdKeeps` | src/lib/analysis/record-authority.ts:686-690 | Giving a record another identifier changes only that field. |
| `CanonicalMerge.BaseIsLeast` | src/lib/analysis/record-authority.ts:706-716 | The base identifier of a content is the least one that its records come with, in whatever order they are listed. |
| `CanonicalMerge.MergedIdsDifferExactly` | src/lib/analysis/record-authority.ts:718-731 | All merged identifiers differ if and only if no ambiguous one is renamed to an identifier that a content has for itself, and no two ambiguous ones agree in the part kept and in the digest piece. |
| `CanonicalMerge.MergedIdsDifferUnlessTaken` | src/lib/analysis/record-authority.ts:718-731 | When no two digests begin alike, all merged identifiers differ if and only if no renaming hits an identifier in use. |
| `CanonicalMerge.SeparableIdsDiffer` | src/lib/analysis/record-authority.ts:718-731 | In particular they differ when no public identifier holds a tilde. |
| `CanonicalMerge.MergedIdsMayCollide` | src/lib/analysis/record-authority.ts:718-731 | Whatever the order of identifiers and the digests are, a record that already has the name to which the first of two equally named contents is renamed is merged under one identifier with it, while those two are told apart. |
| `RecordAuthority.JudgeCitations` | src/lib/analysis/record-authority.ts:1404-1564 | The loop over the citations stops at the first failure with the specified judgement, bindings and channels; where a citation is located is given by `CitationLocation`, and what a judgement says by `AuthorityVerdicts`. |
| `RecordAuthority.CollectOrigins` | src/lib/analysis/record-authority.ts:1360-1592 | The loops over batches and records give one judged origin for each record and the receipt reasons of the batches. |
| `RecordAuthority.MergedIds` | src/lib/analysis/record-authority.ts:1308-1332 | Every origin is mapped to the identifier of its content in the plan of its kind, unless that is empty, and nothing else is mapped. |
| `AuthorityRecords.FirstFailureDecides` | src/lib/analysis/record-authority.ts:1411-1564 | The first citation that fails decides source binding, crosscheck and reason; without one the record is exact and consistent. |
| `AuthorityRecords.PassesExactly` | src/lib/analysis/record-authority.ts:1411-1562 | A citation passes exactly if it is in the record's document, located, owned by an accepted unit, and compatible with all overlapping relations. |
| `AuthorityRecords.PublishedExactly` | src/lib/analysis/record-authority.ts:1386-1573 | A record is published if and only if its batch is untainted, it has one bound annotation, and each of its one to three citations passes. |
| `AuthorityRecords.OneUnitCovers` | src/lib/analysis/record-authority.ts:1472-1480 | Over a discovered ledger at most one unit covers a citation. |
| `AuthorityVerdicts.CitationFailsExactly` | src/lib/analysis/record-authority.ts:1411-1562 | How a citation fails: another document, not located, no verified unit that owns it, or, by the relevance claimed, no relation that bears on it, none that directs the whole bid or an unclear one, a relation about a non-submission record, or uncertainty; each with its source binding, crosscheck and reason. |
| `AuthorityVerdicts.JudgedExactly` | src/lib/analysis/record-authority.ts:1388-1564 | The verdict on every record: set aside with its first shortcoming, or exact and consistent if all citations hold, or else the failure of the first that does not. |
| `AuthorityVerdicts.DisagreesExactly` | src/lib/analysis/record-authority.ts:1513-1562 | A record disagrees if and only if a citation that is looked at is contradicted: submission without a clear relation that directs the bid, non-submission with a relation that may, or uncertainty in a verified unit. It is located if and only if every citation that is looked at lies in a verified unit. |
| `AuthorityVerdicts.ListedExactly` | src/lib/analysis/record-authority.ts:1470-1524 | The citation bindings describe the citations that are looked at and located, in order, with all units and verified relations at their place; the channels are exactly those that a verified relation there names for the whole bid. |
| `AuthorityManifest.JoinOrigins` | src/lib/analysis/record-authority.ts:1594-1604 | The joined groups are the groups by kind and merged identifier of the origins that have one; the others are counted as lost. |
| `AuthorityManifest.VerifyRecordAuthorities` | src/lib/analysis/record-authority.ts:1344-1704 | The producer, with its loops and the over-capacity fallback, returns the specified manifest. What that manifest says of batches and relations is stated in `AuthorityVeto`, and when it passes its checks in `AuthorityTheorem` and `AuthorityInputs`. |
| `AuthorityManifest.Worst` | src/lib/analysis/record-authority.ts:1334-1342 | The joined source binding is one of the members' and of the highest rank. |
| `AuthorityVeto.WorstExactly` | src/lib/analysis/record-authority.ts:1623-1625 | Conflict outranks a relation gap, that a coverage gap, that a missing location, and that an exact binding. |
| `AuthorityVeto.JoinExactly` | src/lib/analysis/record-authority.ts:1604-1645 | What a joined record says: its relevance is the only one its members claim; it disagrees if and only if, with two relevances, all members are located, and otherwise a member disagrees; its reason is the disagreement or the first one of a member; contributors and channels are those of its members. |
| `AuthorityVeto.OriginsStand` | src/lib/analysis/record-authority.ts:1366-1591 | The origins are exactly those of the records of the batches, each with its key, identifier, claimed relevance and verdict. |
| `AuthorityVeto.VetoExactly` | src/lib/analysis/record-authority.ts:1604-1691 | The manifest vetoes the package if and only if it is complete and some record of the batches speaks against it: one of its citations is contradicted by the verified relations, or, where equal records claim two relevances, all citations looked at of all of them lie in verified units. |
| `AuthorityVeto.ReceiptReasonExactly` | src/lib/analysis/record-authority.ts:1355-1654 | The reasons that make a receipt incomplete: repeated batch ids, annotations of unknown records, more than 2,600 records in a batch, records without identifier, and a merged draft with other rows. |
| `AuthorityVeto.UnresolvedExactly` | src/lib/analysis/record-authority.ts:1590-1692 | The unresolved reasons are those of the receipt, those of the records that are contradicted, and the disagreement of located equal records. |
| `AuthorityVeto.RecordReasonsExactly` | src/lib/analysis/record-authority.ts:1589-1620 | The discarded reasons are those of all records that have one, and the disagreement of equal records. |
| `AuthorityVeto.ListedOrigin` | src/lib/analysis/record-authority.ts:1662-1678 | Every listed origin is a record of the batches with its verdict, verified if and only if the manifest is complete and the record may be published. |
| `AuthorityVeto.IncompleteWithholds` | src/lib/analysis/record-authority.ts:1657-1684 | An incomplete receipt withholds every joined record, undecided, with its own reason or the first of the receipt, and otherwise unchanged. |
| `AuthorityVeto.CapacityExactly` | src/lib/analysis/record-authority.ts:1697-1719 | A receipt over 524,288 bytes is replaced by one that decides nothing, any other is sealed as it is. |
| `AuthorityChecks.BookkeepingMeans` | src/lib/analysis/record-authority.ts:528-631 | For any payload: keys and counts are in order if and only if origins, contributors and identifiers correspond one to one, each origin under a record of its kind, identifier and content. |
| `AuthorityChecks.SummedExactly` | src/lib/analysis/record-authority.ts:561-601 | A joined record is accepted if and only if it says of its members what they say: their one relevance, the worst source binding, disagreement if one disagrees or located members differ, agreement and publication if all agree. |
| `AuthorityChecks.ChecksExactly` | src/lib/analysis/record-authority.ts:524-632 | Any stored manifest passes if and only if version, limit, byte count and digest are right, its origins are well shaped, the bookkeeping is one to one, and each joined record sums up its members, or decides nothing where the receipt is incomplete. |
| `AuthorityChecks.DraftChecksExactly` | src/lib/analysis/record-authority.ts:1720-1736 | A manifest matches a draft if and only if it passes and both list the same rows of kind, identifier and content, each once. |
| `AuthorityJoins.JoinMeetsChecks` | src/lib/analysis/record-authority.ts:570-600 | A joined record equals what the checks recompute if and only if its group agrees: one relevance, or two and either all members are located or none disagrees. |
| `AuthorityJoins.JoinVetoesExactly` | src/lib/analysis/record-authority.ts:1606-1621 | Where a group agrees, its record disagrees exactly if a member disagrees or located members have different relevances. |
| `AuthorityJoins.DisagreementIsLost` | src/lib/analysis/record-authority.ts:1612-1621 | Where a group with two relevances does not agree, a member's disagreement is lost: the joined record is undecided. |
| `AuthorityBookkeeping.BookkeepingExactly` | src/lib/analysis/record-authority.ts:608-629 | The bookkeeping of a produced manifest is valid if and only if origin keys differ and no two contents of one kind share a merged identifier. |
| `AuthorityTheorem.ProducedPassesExactly` | src/lib/analysis/record-authority.ts:524-630 | Every produced manifest, complete, incomplete or over capacity, passes the integrity checks if and only if it is the fallback, or keys and identifiers are apart and a complete receipt has only groups that agree. |
| `AuthorityTheorem.ManifestPassesExactly` | src/lib/analysis/record-authority.ts:524-630 | The same for any choice of identifiers and any regular origins: sealing, or giving up over capacity, yields a manifest that passes exactly under these conditions. |
| `AuthorityTheorem.CompleteExactly` | src/lib/analysis/record-authority.ts:1657-1661 | The count of contributors never decides completeness. |
| `AuthorityTheorem.FallbackPasses` | src/lib/analysis/record-authority.ts:1706-1718 | The unresolved manifest passes the integrity checks. |
| `AuthorityCorollaries.DistinctBatchesKeepKeysApart` | src/lib/analysis/record-authority.ts:1565-1571 | Batches with distinct ids never produce two origins with one key. |
| `AuthorityCorollaries.IdsApartExactly` | src/lib/analysis/record-authority.ts:1308-1332 | No two contents of one kind share a merged identifier if and only if no renaming of the merge of that kind hits another identifier. |
| `AuthorityCorollaries.SeparableKeepsIdsApart` | src/lib/analysis/record-authority.ts:1308-1332 | In particular records without a tilde in their identifiers keep contents apart. |
| `AuthorityCorollaries.ProducedPasses` | src/lib/analysis/record-authority.ts:1344-1704 | With distinct batch ids, identifiers apart, one annotation for each record, and groups of one relevance or all located, every produced manifest passes. |
| `AuthorityDraft.SameRecords` | src/lib/providers/openai.ts:1122-1179 | The producer plans the merge of exactly the records that `mergeDrafts` merges, in the same order. |
| `AuthorityDraft.DraftListsOrigins` | src/lib/providers/openai.ts:1122-1179 | The rows of the merged draft are exactly the kinds and identifiers of the origins, none added and none lost. |
| `AuthorityDraft.ProducedMatchesDraftExactly` | src/lib/analysis/record-authority.ts:1720-1735 | Within capacity a manifest matches the merged draft if and only if it passes the checks and no merged identifier is empty. |
| `AuthorityDraft.FallbackMatchesOnlyEmpty` | src/lib/analysis/record-authority.ts:1720-1735 | The fallback matches only a draft without records. |
| `AuthorityDraft.RowsAgreeExactly` | src/lib/analysis/record-authority.ts:1645-1655 | The rows of the merged draft and of the joined records agree if and only if no origin is lost and no two contents share an identifier. |
| `AuthorityInputs.NoneLostExactly` | src/lib/analysis/record-authority.ts:1594-1601 | No origin is lost if and only if no content is named by the empty identifier alone. |
| `AuthorityInputs.CompleteForInputs` | src/lib/analysis/record-authority.ts:1358-1383 | A receipt is complete if and only if batch ids differ, no batch annotates a missing record or has over 2,600 records, no origin is lost, and, with a merged draft, identifiers are apart. |
| `AuthorityInputs.AgreementForInputs` | src/lib/analysis/record-authority.ts:1606-1643 | The joined groups agree if and only if the records of equal kind and content do, whatever their identifiers. |
| `AuthorityInputs.ProducedPassesForInputs` | src/lib/analysis/record-authority.ts:524-630 | The producer meets the checker, in terms of the batches: a manifest passes if and only if it is over capacity, or origin keys differ, no renaming hits another identifier, and, when nothing makes the receipt incomplete, equal records agree. |
| `AuthorityInputs.DistinctBatchesPassExactly` | src/lib/analysis/record-authority.ts:524-630 | The same for distinct batch ids and digests that do not begin alike: only an identifier in use and disagreeing records remain. |
| `AuthorityExample.ExampleDiscovered` | src/lib/analysis/submission-channel.ts:359-503 | The ledger of the concrete input is what discovery gives for its one page. |
| `AuthorityExample.ExampleVerdict` | src/lib/analysis/submission-channel.ts:631-825 | Its verdict is what the adjudication of an uncertain answer gives when the unit is bound to one batch. |
| `AuthorityExample.ExampleIsLocated` | src/lib/analysis/record-authority.ts:1428-1463 | The citations of the concrete input are what its private bindings resolve to in the window of its coverage unit. |
| `AuthorityExample.ConflictingAnnotationsFail` | src/lib/analysis/record-authority.ts:1608-1621 | Concrete input: one batch that annotates two equal claims of an unresolved unit differently, with the merge of its draft, gives a complete manifest that fails its own checks. |
| `CitationLocation.CommittedExactly` | src/lib/analysis/record-authority.ts:258-276 | A fragment counts as issued if and only if it is intact and listed by the batch, or is the window of a listed coverage unit just as the ledger has that unit. |
| `CitationLocation.LocatedExactly` | src/lib/analysis/record-authority.ts:1428-1463 | A private binding is accepted, at its own range, if and only if its fragment was issued, it equals in every field what its own selection resolves to, that is the quotation, all documents agree and the page text is the document's; the remaining checks follow. |
| `CitationLocation.LocationFits` | src/lib/analysis/record-authority.ts:1448-1463 | A located citation is as long as its span. |
| `CitationLocation.PublishedIsQuoted` | src/lib/analysis/record-authority.ts:1404-1573 | For every published record, each quotation stands in the page text of its document at a span that the verified relations back. |
| `Alignment.AlignmentUnits` | src/lib/analysis/record-authority.ts:868-903 | The loop over the code points, with merged white space, expansions and the two trimming loops, gives the alignment. |
| `Alignment.GlyphsExactly` | src/lib/analysis/record-authority.ts:754-760 | Which characters are white space, which are dropped, and what every compatibility glyph stands for. |
| `Alignment.ShapesExactly` | src/lib/analysis/record-authority.ts:754-760 | A hidden position or a dropped character leaves nothing, white space a blank, a surrogate pair itself, and any other character what it stands for. |
| `AlignmentLocality.AlignMonotone` | src/lib/analysis/record-authority.ts:868-903 | Raw spans of units are non-empty, within the text and in order; two units overlap only if they come from one glyph. |
| `AlignmentLocality.ScanSlice` | src/lib/analysis/record-authority.ts:872-897 | Aligning a slice between two code point boundaries is aligning that part of the text. |
| `AlignmentLocality.LocalAlignment` | src/lib/analysis/record-authority.ts:1177-1196 | A match that passes the boundary guard re-aligns to exactly its own units, and the re-normalization test succeeds if and only if the guard passes, so it never rejects what the guard let through. |
| `AlignmentIdempotence.AlignIdempotent` | src/lib/analysis/record-authority.ts:868-903 | Aligning the values of an alignment gives the same values. |
| `SpanMatching.EveryMatch` | src/lib/analysis/record-authority.ts:1063-1074 | All occurrences of the needle, overlapping ones included, in increasing order. |
| `SpanMatching.PageCandidates` | src/lib/analysis/record-authority.ts:1173-1199 | The candidates of a page are exactly the places where the selected text occurs, no end splits a glyph, and the slice has at most 500 units. |
| `SpanResolution.ResolveSemanticSpan` | src/lib/analysis/record-authority.ts:1117-1251 | The search over the pages, the comparison of contexts and the checks give the specified span. |
| `SpanResolution.WindowResolvesExactly` | src/lib/analysis/record-authority.ts:1128-1158 | A selection in the window of a coverage unit resolves if and only if the window is intact, the selection is in bounds and splits no surrogate pair; its range is the selection moved by the start of the window. |
| `SpanResolution.SurvivorsExact` | src/lib/analysis/record-authority.ts:1159-1224 | The survivors are exactly the places of the selected values that are the only one, or agree with 64 units of context, of which there must be some. |
| `SpanResolution.SelectedExactly` | src/lib/analysis/record-authority.ts:1159-1168 | The selected units are those wholly inside the selection, from the first to the last that is not blank. |
| `SpanResolution.CleanExactly` | src/lib/analysis/record-authority.ts:1153-1165 | A selection is searched for if and only if every unit that is not blank lies wholly inside or outside of it and one lies inside. |
| `SpanResolution.AroundExactly` | src/lib/analysis/record-authority.ts:1197-1222 | Contexts agree if and only if there is any and each of the up to 64 units before and after has the value of its counterpart around the place. |
| `SpanResolution.IntactExactly` | src/lib/analysis/record-authority.ts:243-256 | A window is intact if and only if it names its unit, and the first page of its number in the source map has the text it was cut from, at its range. |
| `SpanResolution.ConvertedResolvesExactly` | src/lib/analysis/record-authority.ts:1159-1251 | A selection in a converted document resolves if and only if exactly one place survives and the document's page confirms it, and then to that place. |
| `SpanResolution.ResolvedText` | src/lib/analysis/record-authority.ts:1117-1251 | A resolved span has 1 to 500 units within the page text, and the text there is the selection itself, or normalizes to the selected units. |
| `QuoteSearch.IsWellFormedUtf16` | src/lib/analysis/record-authority.ts:141-153 | True if and only if every surrogate is half of a pair. |
| `QuoteSearch.WhitespaceAlignedUnits` | src/lib/analysis/record-authority.ts:162-176 | The units are the characters and the maximal white-space runs with their raw ranges. |
| `QuoteSearch.BetweenTokens` | src/lib/analysis/record-authority.ts:178-203 | The text between two characters collapses to the values of the units between them. |
| `QuoteSearch.QuoteSelectors` | src/lib/analysis/record-authority.ts:178-203 | The selectors are exactly the substrings with non-white ends that equal the quote up to the length of non-empty white-space runs, in order; there are none exactly if the quote has white ends or some match is over-long or ill-formed. |
| `QuoteSearch.PositionUniqueExactSourceQuote` | src/lib/analysis/record-authority.ts:210-222 | A quote of 1 to 500 well-formed units gets coordinates if and only if it matches in exactly one place that may be used. |
| `QuoteSearch.SearchUnique` | src/lib/analysis/record-authority.ts:178-203 | The search is determined by fragment and quote. |
| `QuoteSearch.GivesUpExactly` | src/lib/analysis/record-authority.ts:178-203 | The search gives up if and only if the quote has white ends or some match may not be used; otherwise the selectors are exactly the matches. |
| `SourceQuotes.ResolveUniqueIssuedSourceQuote` | src/lib/analysis/record-authority.ts:279-305 | The loops over fragments, matches and their resolutions, and the map by physical span, give the specified resolution. |
| `SourceQuotes.QuoteResolvedExactly` | src/lib/analysis/record-authority.ts:279-305 | A quote is resolved if and only if it has 1 to 500 well-formed units, every issued fragment of the document is intact, every occurrence in their texts may be used and has a physical span, there is one, and all name one physical span; it is that span. |
| `SourceQuotes.WindowQuoteText` | src/lib/analysis/record-authority.ts:279-305 | For an occurrence in the window of a coverage unit, the page text at the span equals the quote up to white-space runs. |
| `SourceQuotes.TwoKindsOfSpace` | src/lib/analysis/record-authority.ts:162-176 | The white space of quotes is that of aligned pages, with the next-line control and without the byte order mark. |
| `SourceQuotes.FragmentOrderIrrelevant` | src/lib/analysis/record-authority.ts:286-304 | The result does not depend on the order in which the fragments were issued. |
| `IssuedQuotes.IssueOrderIrrelevant` | src/lib/analysis/record-authority.ts:300-304 | Given the spans found in each fragment, the choice does not depend on the order of the fragments. |
| `IssuedQuotes.ResolvedExactly` | src/lib/analysis/record-authority.ts:286-304 | Given the spans found in each fragment, one is chosen if and only if nothing blocks, there is an occurrence, and all name one physical span. |
| `SplitText.CutBounds` | src/lib/providers/openai.ts:529-544 | A fragment has at most 10,001 units, and every step but the last advances by at least 4,502, so the guard of one unit never decides. |
| `SplitText.SplitCompleteText` | src/lib/providers/openai.ts:525-547 | The loop terminates and emits exactly the cuts that are not blank; blank text gives none. |
| `SplitText.CutExactly` | src/lib/providers/openai.ts:529-544 | A fragment ends with the text, or after the last line break or space of its second half, or else after 10,000 units, and the next one starts 500 units before its end. |
| `SplitText.SplitExactly` | src/lib/providers/openai.ts:525-547 | The fragments are the texts along that chain of cuts, in order, without those that hold nothing but white space. |
| `SplitText.OneChain` | src/lib/providers/openai.ts:529-544 | There is one such chain only. |
| `SplitText.QuoteIsSelectable` | src/lib/providers/openai.ts:539-544 | Every substring of up to 500 units (501, in fact) that is not blank lies whole in an emitted fragment. |
| `SplitText.OverlapIsExact` | src/lib/providers/openai.ts:539-544 | All substrings of a size are kept whole if and only if the size is at most 501. |
| `SplitText.FragmentBounds` | src/lib/providers/openai.ts:529-544 | Emitted fragments are bounded, not blank and part of the text. |
| `JsonPrefix.QuotedSplits` | src/lib/crypto.ts:21-24 | A quoted string ends at its own closing quote and names one string. |
| `StableJson.HexDigitExactly` | src/lib/crypto.ts:21-24 | Escapes are written with the lower-case hexadecimal digits. |
| `JsonPrefix.JoinedSplits` | src/lib/crypto.ts:26-33 | Two closed comma-separated lists with one text have the same parts. |
| `JsonInjective.ValuesSplit` | src/lib/crypto.ts:21-34 | Serialized values can be told apart without looking behind them, up to a delimiter after a number. |
| `JsonCanonical.TextDecides` | src/lib/crypto.ts:21-34 | One serialization means one value up to the order of object keys, whatever order sorts the keys. |
| `JsonCanonical.StableExactly` | src/lib/crypto.ts:21-34 | Two JSON values have one serialization if and only if they are equal up to the order of object keys, provided the comparison tells the keys of each object apart. |
| `JsonCanonical.TiedKeysKeepOrder` | src/lib/crypto.ts:30-33 | Two different keys that compare as equal keep their insertion order, so one object has two serializations. |
| `JsonCanonical.OrderDecides` | src/lib/crypto.ts:21-34 | Equal values always have equal serializations if and only if the comparison tells all keys apart. |
| `JsonCanonical.CanonicalExactly` | src/lib/analysis/record-authority.ts:671-684 | Two records have one canonical serialization if and only if they differ at most in the identifier field; their other keys are told apart by the comparison. |
| `FragmentRepair.DecomposesOneWay` | src/lib/evidence/citations.ts:225-272 | From one start there is at most one decomposition of the quote. |
| `FragmentRepair.RepairWord` | src/lib/evidence/citations.ts:246-263 | The inner loop finds the number of fragments that make up a word, or none fits. |
| `FragmentRepair.MatchFrom` | src/lib/evidence/citations.ts:232-268 | The greedy match from one start succeeds if and only if a decomposition with a repair exists there. |
| `FragmentRepair.ContainsWithRepair` | src/lib/evidence/citations.ts:225-272 | For quotes of at least 24 units the result is true if and only if some window of the page decomposes the whole quote with at least one legal join. |

## Left out

- English and Unicode semantics: topic keys, aliases, source authorization, channel mentions, amendment numerals and the alphabetic
  test are parameters, and the theorems hold for every choice of them.
- `localeCompare` is a parameter, assumed to be a strict total order on identifiers, labels and digests where a result needs an order;
  on object keys it may leave ties (`JsonCanonical.KeysTold`).
- SHA-256 and HMAC are injective here: a digest is represented by what it digests, or by the tuple of digested fields. Truncated
  candidate ids are taken as injective too; the 16 digits in merged identifiers are a parameter.
- ReconcileFacts.ReconcileVersionedFacts: requires distinct fact ids, the key of the result map; with equal ids the last writer
  would decide. Safe answers, merged citations and origin keys of a conflict are determined by its candidates and
  not listed separately.
- ReconcileFacts.SortConflicts: with equal slugs only the multiset of conflicts is determined, because the sort is stable on an order
  that the input determines.
- RunStore.AdmitQueuedRun: claiming uploads and reserving the budget are one Boolean preflight outcome; messages and retry hints are
  not modelled.
- RunStore.NeonRunStore.Update: a run that does not exist is not modelled.
- RunProtocol: cost events and most payload fields of the row are not part of the protocol state, listings and removal of rows are
  left out, and writers elsewhere in the repository are represented by the mutations of `RunRow`. Cleanup retry dispatches and the
  in-memory store are left out.
- PaidLedger.Extract: the deadline arithmetic and the Monid reservation are inputs; token counts are those of the preflight.
- SubmissionLedger.DiscoverLedger: sections, printed labels and channel hints of candidates, and the ledger digest, are left out; of
  documents with one key the last in sorted order stays, at the place of the last instead of the first.
- AdjudicationLoop.VerifySubmissionAdjudication: reasons are a set instead of a list without repetitions, and the counts of expected
  and verified batches are left out. The code never compares the ledger digest of a binding with the ledger itself, so neither
  does the model.
- RecordAuthority.CollectOrigins: takes bindings as `CitationLocation.Locate` leaves them, in a separate step before the loops. Sorted
  lists in citation bindings are sets and multisets.
- CitationLocation.LocatedExactly: the version number of a binding is left out.
- AuthorityManifest.VerifyRecordAuthorities: the byte length of a payload is a parameter; shapes of hexadecimal digests and the
  presentation sidecar are left out. Reason lists are sets.
- FieldMerge.PlanFieldMerge: the document and the citations of a record are arbitrary functions of its other fields; validation of
  records against their schema is left out.
- CanonicalMerge.MergeDrafts: only the records are modelled; the summary, questions and unknowns of a draft are left out.
- Alignment.AlignmentUnits: the positions that Markdown layout hides are an arbitrary set; detecting them is left out, and locality and
  idempotence are stated for pages, where the set is empty.
- SpanResolution.ResolveSemanticSpan: the identifier of the chunk and the checks for safe integers are left out; positions are natural
  numbers.
- FragmentRepair.ContainsWithRepair: the texts are given as lexemes, which are not empty; page selection around it is left out.
- StableJson: numbers are given by their printed text, and values outside JSON (`undefined`, functions, dates) are left out.
- Materialization, source anchors, packing of fragments into batches (`rebalanceFragmentBatches`), adapters, storage, routes and user
  interface would add mostly pattern tests and easy members.
