# CapabilityCommons: a verified model

CapabilityCommons publishes versioned knowledge objects, indexes them for search through an outbox, relates them in a
typed graph and ingests new ones from documents. Its state lives in database tables; here each table is a sequence or
map of rows and each commit is one atomic step. The project models the parts that are algorithms or protocols and
proves what they promise, for all inputs, all runs and all reachable states.

| module | models |
|---|---|
| `Chunker` | `chunk_text`: greedy packing of paragraphs, overlapping windows over long ones |
| `Embedding` | the batched fill of missing embeddings |
| `Catalog`, `Services` | the tables of the pipeline, what every call makes of them, and the services as a mutable class |
| `Pipeline` | calls, seeding and any number of workers as a state machine; what every run keeps |
| `Vetting` | what the publish gate leaves open: safety text of seeded and bypassing content, approvals and texts |
| `Outbox` | one worker polling: who gets a turn, progress, termination |
| `Graph` | the two breadth-first searches |
| `Entities` | entity merges: one merge as a quotient of the graph, runs of merges as a union-find forest |
| `Fusion`, `Truncation` | weighted reciprocal rank fusion; what fetching three candidates a result loses |
| `Canonicalize` | similarity groups and the application of merge and split decisions |
| `Lineage` | what decisions do to the files they find, through whole runs |
| `Seeding` | the seed loader's slug maps and its three edge loops |
| `Segmenter` | headings, page markers, segments |
| `ResponseCache`, `Pagination` | the response cache; keyset pagination |
| `Domain`, `Collections` | the enumerations; facts about sequences and sets that several modules share |

How to read it. A method models a piece of the program step by step and is proved against a specification function or
predicate; lemmas about that specification state the properties. Service calls are atomic, and so is each handler's
transaction; a handler commits before its event is marked processed, so a worker can crash in between and another
worker can claim the same event. There is one workspace unless a row names one.

What the proofs found where the code and its description part ways; the model follows the code:

- `merge_entities` tests columns one by one, not together, so it can delete an edge that is no duplicate
  (`Entities.OverDeletion`). `Entities.QuotientIffTestsExact` says exactly when a merge is a quotient of the graph.
- `add_alias`, `attach_entities` and `create_edge` do not check that an entity is still unmerged
  (`Entities.BareThroughoutIff`; `Entities.AliasOfMerged` is a run that gives a merged entity an alias).
- `_poll_batch` always takes the oldest unprocessed events, so a batch of failing ones starves everything after them
  (`Outbox.ProcessedIffFewFailuresBefore`, `Outbox.StarvedByOne`). One transaction an event, which the code's comment
  offers as the remedy against starvation, removes it only below a full batch of permanent failures.
- `neighbors` and `paths_between` agree about endpoints except at the seed itself (`Graph.AgreementAtSeed`,
  `Graph.SeedWithoutCycle`).
- Hybrid search fuses what is fetched, three candidates a result, and can lose a result of the full rankings for every
  positive `top_k`, the default of 20 included: a version that one ranker fetches and the other lists too late keeps
  part of its score only (`Truncation.ReturnsBestForAllIff`, `Truncation.HalfCutIsLost`). Among rankings without
  such a version some lose results for each `top_k` from 1 to 15, and none does for any other
  (`Truncation.ReturnsBestWithoutHalfCutsIff`): from 16 on, a version that neither ranker fetched belongs to no best
  `top_k` (`Fusion.OverfetchThreshold`).
- `_carry_safety_fields` is documented to never lower a risk band and never drop safety text. Neither holds of whole
  decisions and runs. A band is lowered when two decisions choose the same slug
  (`Canonicalize.SharedFreshSlugLowersRisk`), when one overwrites a draft without listing it
  (`Canonicalize.UnlistedOverwriteLowersRisk`), and when one deprecates a file written earlier in the run, whose band it
  does not look up (`Lineage.ChainLowersRisk`). `Lineage.RunLowersNoneIff` says exactly which runs lower the band of no
  file any decision finds, and `Lineage.HeirsAsRiskyIff` which leave all that takes the place of the original files as
  risky as these were.
- An object keeps one safety boundary, its own or the first one among the loaded drafts it lists, so one that differs is
  dropped (`Canonicalize.MergeDropsBoundary`), and so is that of a file overwritten unlisted or by a later decision
  (`Lineage.OverwriteDropsBoundary`, `Lineage.SharedSlugDropsBoundary`). `Canonicalize.WrittenKeepsBoundariesIff` has the
  exact condition for the listed drafts of one decision, `Lineage.DecisionDropsNoneIff` for all files one decision
  finds, `Lineage.HeirsKeepBoundaryIff` for whole runs. Escalation guidance, which the publish gate accepts as well, is
  never carried over (`Canonicalize.SafetyTextIff`, `Canonicalize.GuidanceIsDropped`). And a split all of whose
  candidates lack a slug and an id archives a draft without anything in its place (`Lineage.LeavesHeirIff`,
  `Lineage.NamelessSplit`).
- The publish gate's safety-text rule is not kept by seeding, which publishes content below high risk without it
  (`Vetting.SeededWithoutSafetyText`, `Vetting.RunIsSafeIff`); and a review approves a version, not its text, so a draft
  rewritten after its approval still passes the gate (`Vetting.RewrittenAfterApproval`, `Vetting.TextApprovedIff`).
- A heading is listed under its sibling when a level above them was skipped (`Segmenter.SiblingsReplaceIff`,
  `Segmenter.SkippedLevelNests`).
- Without headings a segment's start page is always the base page, not the page of its first character
  (`Segmenter.WholeStartsOnBasePage`, `Segmenter.MarkerBeforeText`).
- `embed_version` pairs segments and vectors until either runs out; a short answer leaves segments unembedded without
  an error (`Embedding.EmbeddedIffEnough`, `Embedding.ShortAnswer`), although the returned count includes them.
- `ResponseCache.invalidate` also hits longer prefixes that continue the given one after a colon
  (`ResponseCache.InvalidatedKeys`, `ResponseCache.LongerPrefixIsHit`).
- `chunk_text` does not end on a long paragraph for some overlaps its signature admits (`Chunker.LoopEndsIff`); the one
  caller uses none of them.

## Model

| member | source | states |
|---|---|---|
| Chunker.ChunkText | src/capability_commons/search/indexer.py:18-34 | the nested loops over mutable `current` and `chunks` compute `Chunks`, which is a cover of the text whose pieces end where they must, and terminate whenever the overlap is less than the chunk size |
| Chunker.ChunksCover | src/capability_commons/search/indexer.py:14-34 | every chunk is non-empty, at most `max_chars` long and the substring of the joined text at its offset; offsets strictly increase from 0; neighbours share exactly `overlap` characters or are parted by exactly one separator in front of a paragraph; the last chunk ends the text; a chunk that the next one overlaps is exactly `max_chars` long and inside one paragraph, and one that a separator ends has no room for the next paragraph |
| Chunker.ChunksAreTheOnlyCut | src/capability_commons/search/indexer.py:18-34 | there is only one cover whose pieces fit and end for those reasons: the list of chunks |
| Chunker.NothingLost | src/capability_commons/search/indexer.py:21-34 | each character of each paragraph stands in some chunk, at its own place of the text |
| Chunker.ChunksAreRuns | src/capability_commons/search/indexer.py:21-33 | when every paragraph fits, the chunks are the joined runs of a split of the paragraph list into contiguous runs that fit |
| Chunker.GreedyStaysAhead | src/capability_commons/search/indexer.py:22-27 | any other split has more runs, or as many and a last run at least as long |
| Chunker.ChunksAreFewest | src/capability_commons/search/indexer.py:18-34 | when every paragraph fits, no split into runs that fit has fewer runs than there are chunks |
| Chunker.LoopEndsIff | src/capability_commons/search/indexer.py:29-31 | for any chunk size and non-negative overlap, the window loop ends on a long paragraph if and only if the overlap is below the chunk size, or above it and at most twice as large |
| Embedding.FillBatch | src/capability_commons/services/embedding.py:84-86 | the paired loop over a batch and its vectors stops when either runs out |
| Embedding.EmbedAll | src/capability_commons/services/embedding.py:79-91 | the batch loop computes `EmbedSegments`; the count is the number of segments that had no embedding |
| Embedding.EmbeddedIffEnough | src/capability_commons/services/embedding.py:66-91 | no text changes, no embedding is overwritten, and all segments are embedded if and only if every batch got at least as many vectors as texts |
| Embedding.FilledIffEnough | src/capability_commons/services/embedding.py:80-87 | the same for any list of missing ordinals, batch by batch |
| Embedding.EachSegmentItsOwnVector | src/capability_commons/services/embedding.py:80-86 | with a provider that answers text by text, each missing segment gets the vector of its own text, across batch boundaries |
| Embedding.FilledAt | src/capability_commons/services/embedding.py:79-87 | for any provider, the k-th missing segment gets the vector answered for its place in its batch of fifty texts, or none if the answer is too short |
| Embedding.ShortAnswer | src/capability_commons/services/embedding.py:83-87 | one vector for two texts: the second segment has no embedding and is counted |
| Services.CatalogStore.CheckGate | src/capability_commons/services/publish_gate.py:53-87 | the gate passes if and only if high risk is approved, required safety text is there and no contradiction is open; each blocker is reported exactly when its rule fails, the last one with the number of open cases |
| Services.CatalogStore.CountApprovals | src/capability_commons/services/publish_gate.py:89-97 | the number of approving reviews of the version; positive if and only if there is one |
| Services.CatalogStore.CountOpenContradictions | src/capability_commons/services/publish_gate.py:99-112 | the number of open or triaged contradictions that name the version on either side; positive if and only if there is one |
| Services.CatalogStore.AssertVersionBelongs | src/capability_commons/services/registry.py:460-464 | a missing version is not found; one that does not name the object as its owner, even an unknown object, is a conflict |
| Services.CatalogStore.UpdateDraftVersion | src/capability_commons/services/registry.py:168-196 | the current version is immutable; otherwise each field that was set has the value given, each other one its old value, and no other row changes |
| Services.CatalogStore.PublishVersion | src/capability_commons/services/registry.py:316-358 | a closed gate changes nothing; otherwise the prior version, if another, is superseded, the new one current, the object published and an event for it added, and nothing else changes, in one commit; each stated from the old rows |
| Services.CatalogStore.MarkVersionValidity | src/capability_commons/services/registry.py:416-430 | only a version of that object changes; withdrawing the current version, and only that, also deprecates the object |
| Services.CatalogStore.SubmitReview | src/capability_commons/services/review.py:21-70 | the record is added, so only an approving one opens the gate's approval rule; which lifecycle and validity each outcome gives; no other version or object changes |
| Services.CatalogStore.ResolveContradiction | src/capability_commons/services/review.py:111-139 | succeeds exactly for a known case and a known resolving version, if one is named; only status and resolution of that case change |
| Services.CatalogStore.OpenContradiction | src/capability_commons/services/review.py:72-109 | succeeds exactly for two distinct existing versions; an open case and an event are added |
| Services.CatalogStore.MarkVerified | src/capability_commons/services/review.py:141-147 | succeeds exactly for a version of the object; only that object's lifecycle changes |
| Services.CatalogStore.DeprecateObject | src/capability_commons/services/registry.py:360-373 | only that object's lifecycle changes, and an event is added |
| Services.CatalogStore.CreateVersion | src/capability_commons/services/registry.py:95-166 | fails exactly for an unknown object; otherwise the version given and an event, and no other table changes |
| Services.CatalogStore.CreateObject | src/capability_commons/services/registry.py:49-93 | a taken slug is a conflict that changes nothing; otherwise a draft object without current version and an event, and no other table changes |
| Services.CatalogStore.ReindexVersion | src/capability_commons/search/indexer.py:42-74 | the version's segments become one unembedded segment a chunk of its current text, in order, and a reindex event is added, in one commit |
| Services.CatalogStore.EmbedVersion | src/capability_commons/services/embedding.py:62-91 | only missing embeddings of that version are filled; without a provider nothing happens |
| Services.CatalogStore.DispatchEvent | src/capability_commons/cli/worker.py:134-169 | each kind of event does what its handler does; kinds without handler do nothing and succeed |
| Services.CatalogStore.SelectUnprocessed | src/capability_commons/cli/worker.py:63-70 | the oldest unprocessed events, at most a batch |
| Services.CatalogStore.ProcessEvent | src/capability_commons/cli/worker.py:101-130 | an event is skipped if processed already, left alone if its handler raises, and otherwise handled and marked; the answer says which |
| Services.CatalogStore.PollBatch | src/capability_commons/cli/worker.py:59-132 | one poll over the mutable tables is `Outbox.Poll`, and returns how many events it processed |
| Pipeline.IndexedOrAnnounced | src/capability_commons/services/registry.py:330-356 | in every reachable state of calls, seeding, workers and crashes, a published object's current version is its own and is indexed as its current text is chunked, or an unprocessed publish event names it |
| Pipeline.RunIsSound | src/capability_commons/cli/worker.py:96-129 | the invariant behind it: foreign keys hold, claims name events, and the pending event is one whose handler is still to run |
| Pipeline.HandleKeepsIndex | src/capability_commons/cli/worker.py:142-151 | a claim keeps the invariant although it takes away a pending event, and although two workers may hold the same one |
| Pipeline.ReleaseKeeps | src/capability_commons/cli/worker.py:128-129 | marking processed and crashing before it both keep the invariant |
| Pipeline.EmbeddedOrAnnounced | src/capability_commons/services/embedding.py:66-91 | with a provider that answers every text, in every reachable state each version is fully embedded or an unprocessed reindex event names it |
| Pipeline.CallKeepsLinks | src/capability_commons/services/registry.py:320-341 | every call and seed keeps the foreign keys |
| Pipeline.CallIsQuiet | src/capability_commons/services/registry.py:174-187 | a call touches no segment and no old event, and whatever it makes public or changes while public it announces |
| Pipeline.CallKeepsGate | src/capability_commons/services/review.py:43-51 | every call but a bypassing publish keeps public versions neither deprecated nor retracted and, if high risk, approved |
| Pipeline.PublishedIsVetted | src/capability_commons/services/registry.py:316-341 | unless a publish bypasses the gate, in every reachable state a published object has a current version of its own, not deprecated or retracted, and approved if high risk |
| Vetting.StepIsSafeIff | src/capability_commons/services/publish_gate.py:64-72 | a step keeps safety text on public content that needs it if and only if it is no bypassing publish, and no seeding of a published node, that lacks it |
| Vetting.RunIsSafeIff | src/capability_commons/cli/seed.py:264-327 | public content has the safety text its type needs throughout a run if and only if every step is of that kind |
| Vetting.SeededWithoutSafetyText | src/capability_commons/cli/seed.py:273-316 | a low-risk skill guide without safety text is public once seeded |
| Vetting.DisplacedStaysSuperseded | src/capability_commons/services/registry.py:332-334 | over any run, a version that a publish displaces is superseded in every later state until a call names it again |
| Vetting.SeedAdds | src/capability_commons/cli/seed.py:264-327 | seeding a known slug adds nothing; otherwise one object, one current version and, unless held for review, one publish event, with the values of the node |
| Vetting.TextApprovedIff | src/capability_commons/services/review.py:32-44 | the present text of a version is one some review approved if and only if after some approval no draft update changed it or the last one to set it set the approved text again |
| Vetting.RewrittenAfterApproval | src/capability_commons/services/publish_gate.py:58-62 | five calls through the gate that make a high-risk text public that nobody approved |
| Outbox.ProcessAllEffect | src/capability_commons/cli/worker.py:76-130 | a batch marks exactly its events that do not fail, leaves all others as they are and adds only reindex events |
| Outbox.InWindow | src/capability_commons/cli/worker.py:64-69 | an unprocessed event is in the batch if and only if fewer than a batch of unprocessed ones precede it |
| Outbox.ProcessedIffFewFailuresBefore | src/capability_commons/cli/worker.py:59-130 | an event that does not fail is processed by some later poll if and only if fewer than a batch of failing events precede it |
| Outbox.GetsItsTurn | src/capability_commons/cli/worker.py:96-130 | within one more poll than there are healthy events before it |
| Outbox.Starves | src/capability_commons/cli/worker.py:110-126 | behind a batch or more of failing events it is never processed, however many polls follow |
| Outbox.StarvedByOne | src/capability_commons/cli/worker.py:64-69 | an input: with batches of one, a failing event before a healthy one |
| Outbox.WorkDone | src/capability_commons/search/indexer.py:65-73 | two per publish event and one per other healthy event: this measure drops by exactly the number of processed events although handlers add events |
| Outbox.WindowSuccesses | src/capability_commons/cli/worker.py:75-132 | a poll processes exactly the events of its batch that do not fail |
| Outbox.PollMakesProgress | src/capability_commons/cli/worker.py:59-132 | a poll processes at least min(batch size less failing events, healthy events) |
| Outbox.PollsDrain | src/capability_commons/cli/worker.py:59-132 | with fewer failing events than a batch, at most as many polls as the measure says leave no healthy event |
| Outbox.IndexCatchesUp | src/capability_commons/cli/worker.py:142-169 | from any reachable state with idle workers, if nothing fails, a bounded number of polls leaves every version fully embedded and every public version indexed as its current text |
| Graph.WithinIsReachability | src/capability_commons/graph/adapters/relational_graph.py:25-43 | the layers are exactly reachability by chains of at most that many allowed edges |
| Graph.SelectedRows | src/capability_commons/graph/adapters/relational_graph.py:30-37 | the rows of one query: the node's, of a type asked for if any is, of the workspace asked for if one is |
| Graph.Neighbors | src/capability_commons/graph/adapters/relational_graph.py:18-44 | exactly the allowed edges whose source is at distance less than `depth` from a seed, each as often as the table holds it, in non-decreasing distance, and termination |
| Graph.ExpandLayer | src/capability_commons/graph/adapters/relational_graph.py:28-43 | one round takes layer k to layer k + 1 in whatever order the frontier is visited |
| Graph.Discover | src/capability_commons/graph/adapters/relational_graph.py:38-42 | exactly the unseen targets are added to `seen` and to the next frontier |
| Graph.CollectedIff | src/capability_commons/graph/adapters/relational_graph.py:30-37 | membership in the result, both directions |
| Graph.PathsBetween | src/capability_commons/graph/adapters/relational_graph.py:46-66 | a chain of allowed edges from source to destination, shortest among all non-empty ones and within `max_depth`, or the empty list exactly when there is none; cycles back to the source included; and termination |
| Graph.ExpandEntry | src/capability_commons/graph/adapters/relational_graph.py:58-65 | the inner loop returns a shortest path or leaves a queue that accounts for all discovered nodes |
| Graph.NoShortChain | src/capability_commons/graph/adapters/relational_graph.py:50-65 | no chain to the destination is as short as the depth the queue has reached |
| Graph.SearchesAgree | src/capability_commons/graph/adapters/relational_graph.py:18-66 | one seed, no workspace filter: a node is the destination of a collected edge if and only if a path to it is found; endpoints too, except at the seed |
| Graph.AgreementAtSeed | src/capability_commons/graph/adapters/relational_graph.py:21-66 | at the seed the searches agree on endpoints if and only if the depth is not positive, a short enough cycle passes through it or no allowed edge leaves it |
| Graph.SeedWithoutCycle | src/capability_commons/graph/adapters/relational_graph.py:48-66 | an input on which they disagree: one edge out of the seed and no way back |
| Entities.EntityService.CreateEntity | src/capability_commons/services/entities.py:18-53 | a taken name is a conflict that changes nothing |
| Entities.EntityService.AddAlias | src/capability_commons/services/entities.py:55-74 | idempotent: the row returned is the entity's row for that alias, new only if there was none |
| Entities.EntityService.AttachEntity | src/capability_commons/services/registry.py:230-239 | a second attachment updates the one row of the pair |
| Entities.EntityService.CreateEdge | src/capability_commons/services/registry.py:269-296 | entity ends must exist |
| Entities.EntityService.MergeEntities | src/capability_commons/services/entities.py:96-214 | five ways to fail without a change; otherwise aliases, links and edges move as specified and the source is marked merged |
| Entities.EntityService.MergeAliases | src/capability_commons/services/entities.py:110-123 | delete then update equals moving all but the duplicates |
| Entities.EntityService.MergeLinks | src/capability_commons/services/entities.py:125-141 | the same for version links |
| Entities.EntityService.MergeEdges | src/capability_commons/services/entities.py:143-198 | five statements in sequence equal one simultaneous renaming of what both deletions leave, less self-loops |
| Entities.MergeRedirectsEdges | src/capability_commons/services/entities.py:143-198 | no edge touches the source, no self-loop is left at the target, rows away from the source are unchanged, every row left is the renamed old row, and distinct keys stay distinct |
| Entities.RowsLeft | src/capability_commons/services/entities.py:143-198 | exactly which edge rows survive a merge, column by column for both deletions, and what each becomes |
| Entities.NewColumnIsSpared | src/capability_commons/services/entities.py:153-175 | a row that becomes no self-loop survives whenever its type, its other end's id or that end's kind alone is new to the target |
| Entities.MergeIntoIsolated | src/capability_commons/services/entities.py:178-198 | with no edge at the target the result is exactly the renamed graph without self-loops |
| Entities.QuotientIffTestsExact | src/capability_commons/services/entities.py:145-177 | the keys left are the renamed keys if and only if the column-wise tests hit real duplicates only |
| Entities.OverDeletion | src/capability_commons/services/entities.py:150-160 | an input on which an edge without duplicate is lost |
| Entities.RunsKeepInv | src/capability_commons/services/entities.py:18-214 | every run whose caller uses unmerged entities keeps the uniqueness constraints, the forest, and nothing on merged entities |
| Entities.MergesFormForest | src/capability_commons/services/entities.py:105-108 | the target of a merge is merged itself only later, so merges never lead round in a circle; every merged entity has the root of the entity it went into |
| Entities.RootsHoldTheUnion | src/capability_commons/services/entities.py:110-141 | after any such run an entity holds an alias or a version link if and only if it was given to some entity whose root it is; merged entities hold none |
| Entities.RootSharesWorkspace | src/capability_commons/services/entities.py:102-103 | merges never cross workspaces: after any such run an entity and its root share one |
| Entities.LinksKeepMentions | src/capability_commons/services/entities.py:125-141 | a moved link keeps its version and mention count, and a link goes only when the target has one to that version |
| Entities.BareIffCallerChecks | src/capability_commons/services/entities.py:55-63 | after a successful alias, attach or edge call merged entities are still bare if and only if the call named no merged entity |
| Entities.BareThroughoutIff | src/capability_commons/services/entities.py:55-74 | merged entities are bare throughout a run if and only if every alias, attach and edge call that succeeds in it names unmerged entities only |
| Entities.AliasOfMerged | src/capability_commons/services/entities.py:55-63 | a run of create, create, merge and add_alias after which a merged entity holds an alias |
| Fusion.RankMap | src/capability_commons/search/adapters/postgres_search.py:319-320 | ranks count from 1 in list order |
| Fusion.HitMap | src/capability_commons/search/adapters/postgres_search.py:323-329 | the full-text hit wins |
| Fusion.ScoreAt | src/capability_commons/search/adapters/postgres_search.py:331-338 | the score of a version from its places in the two lists |
| Fusion.ScoreAll | src/capability_commons/search/adapters/postgres_search.py:331-338 | each candidate once, with its score, in any order of the set |
| Fusion.SortByScore | src/capability_commons/search/adapters/postgres_search.py:340 | same entries, descending |
| Fusion.SearchHybrid | src/capability_commons/search/adapters/postgres_search.py:294-347 | the result is a best `top_k` of the union of candidates by exact score, distinct, in non-increasing rounded score, each with its full-text metadata if it has any |
| Fusion.ResultHits | src/capability_commons/search/adapters/postgres_search.py:343-346 | each result has its score rounded to millionths and the metadata of its full-text hit, or of its vector hit if it has none |
| Fusion.AheadNeverScoresBelow | src/capability_commons/search/adapters/postgres_search.py:331-338 | a version both full rankings put before another never scores below it, however the rankings are cut |
| Fusion.RoundingIsMonotone | src/capability_commons/search/adapters/postgres_search.py:345 | rounding, ties to even, never reverses the order |
| Fusion.RoundingIsNearest | src/capability_commons/search/adapters/postgres_search.py:345 | the result is a whole number of millionths, at most half of one away, the even one of two as near |
| Fusion.OverfetchSuffices | src/capability_commons/search/adapters/postgres_search.py:294-312 | from `top_k` 16 on, a version missing from both cut lists is in no best `top_k` of the full rankings, however ties are broken |
| Fusion.OverfetchTooSmall | src/capability_commons/search/adapters/postgres_search.py:299-308 | for each `top_k` from 1 to 15 two rankings on which it is |
| Fusion.OverfetchThreshold | src/capability_commons/search/adapters/postgres_search.py:278-312 | for all rankings, no version that neither ranker fetched belongs to a best `top_k`, if and only if `top_k` is 0 or at least 16; versions that one ranker fetched are the subject of `Truncation` |
| Truncation.SearchReturns | src/capability_commons/search/adapters/postgres_search.py:342-347 | what the search returns is a best `top_k` of the cut rankings, the sets the next rows are about |
| Truncation.ReturnsBestForAllIff | src/capability_commons/search/adapters/postgres_search.py:294-312 | everything that may be returned is a best `top_k` of the full rankings, whatever they are, if and only if `top_k` is 0 |
| Truncation.HalfCutIsLost | src/capability_commons/search/adapters/postgres_search.py:331-338 | for each positive `top_k`, rankings in which a fetched version belongs to every best `top_k` of the full rankings and to nothing that may be returned |
| Truncation.ReturnsBestWithoutHalfCutsIff | src/capability_commons/search/adapters/postgres_search.py:294-347 | the same for all rankings in which no version is fetched from one list and cut from the other: if and only if `top_k` is 0 or at least 16 |
| Truncation.TooFewFetched | src/capability_commons/search/adapters/postgres_search.py:299-308 | for each `top_k` from 1 to 15, such rankings in which nothing that may be returned is right |
| Truncation.ShortRankingsAreWhole | src/capability_commons/search/adapters/postgres_search.py:299-308 | rankings no longer than what is fetched return exactly their best `top_k` |
| Canonicalize.FindSimilarGroups | src/capability_commons/cli/ingest/canonicalize.py:42-77 | the loops over mutable `visited` and `groups` compute the groups of the recursively defined heads |
| Canonicalize.CollectGroup | src/capability_commons/cli/ingest/canonicalize.py:54-75 | the inner loop collects the group of one head and marks exactly its members |
| Canonicalize.GroupsDisjoint | src/capability_commons/cli/ingest/canonicalize.py:51-77 | groups are pairwise disjoint |
| Canonicalize.GroupMembers | src/capability_commons/cli/ingest/canonicalize.py:59-71 | a group is led by a head and has exactly the later drafts of its domain whose earliest similar head it is |
| Canonicalize.GroupsInOrder | src/capability_commons/cli/ingest/canonicalize.py:51-77 | every group has at least two members, in the order of the drafts, and groups come in the order of their first members |
| Canonicalize.MembersAreAlike | src/capability_commons/cli/ingest/canonicalize.py:59-71 | all members are of the head's domain, and the title or the summary of each is as similar to the head's as required |
| Canonicalize.NonHeadIsGrouped | src/capability_commons/cli/ingest/canonicalize.py:59-74 | every draft that is no head is in the group of its head |
| Canonicalize.HeadsAreApart | src/capability_commons/cli/ingest/canonicalize.py:51-71 | no two heads of one domain are similar |
| Canonicalize.HeadsDiffer | src/capability_commons/cli/ingest/canonicalize.py:59-71 | two heads of one domain have titles and summaries less similar than required |
| Canonicalize.CarrySafetyFields | src/capability_commons/cli/ingest/canonicalize.py:98-112 | the loops compute the highest band and the first boundary |
| Canonicalize.SafetyIsCarried | src/capability_commons/cli/ingest/canonicalize.py:98-112 | at least as risky as the object and every original and no riskier than all; the boundary is the object's own, or else the first among the originals, and empty exactly when none has one |
| Canonicalize.BoundariesKeptIff | src/capability_commons/cli/ingest/canonicalize.py:98-112 | every original's safety boundary is kept if and only if no two of them differ and none differs from the object's own |
| Canonicalize.DraftsDir.ApplyMerge | src/capability_commons/cli/ingest/canonicalize.py:115-157 | a rejected merge changes nothing; otherwise write first, then archive all deprecated drafts but the one just written |
| Canonicalize.DraftsDir.ApplySplit | src/capability_commons/cli/ingest/canonicalize.py:164-208 | all children are checked before any is written; drafts just written are not archived |
| Canonicalize.DraftsDir.PrepareChildren | src/capability_commons/cli/ingest/canonicalize.py:175-194 | nameless children are dropped, and one bad child rejects the split |
| Canonicalize.WrittenIsAsRisky | src/capability_commons/cli/ingest/canonicalize.py:128-143 | everything an applied decision writes is at least as risky as every loaded draft it deprecates |
| Canonicalize.SafetyTextIff | src/capability_commons/cli/ingest/canonicalize.py:105-112 | an object ends up with text the publish gate accepts if and only if it had some, boundary or escalation guidance, or an original has a boundary |
| Canonicalize.GuidanceIsDropped | src/capability_commons/cli/ingest/canonicalize.py:108-112 | an original whose only safety text is escalation guidance is replaced by an object without any |
| Canonicalize.WrittenKeepsBoundariesIff | src/capability_commons/cli/ingest/canonicalize.py:128-143 | for every object an applied merge or split writes and every loaded draft it lists as deprecated: all their boundaries are kept if and only if they agree with each other and with the object's own |
| Canonicalize.MergeDropsBoundary | src/capability_commons/cli/ingest/canonicalize.py:108-112 | an applied merge of drafts with boundaries "x" and "y" keeps "x" |
| Canonicalize.DecideFiles | src/capability_commons/cli/ingest/canonicalize.py:139-157 | a rejected decision changes no file, an applied one none it does not name; what it writes last under a name stands, and what it deprecates without writing is gone |
| Canonicalize.MergeAppliesIff | src/capability_commons/cli/ingest/canonicalize.py:115-150 | exactly when a merge is applied, and what it writes |
| Canonicalize.SplitAppliesIff | src/capability_commons/cli/ingest/canonicalize.py:164-194 | exactly when a split is applied |
| Canonicalize.LastCandidateLeft | src/capability_commons/cli/ingest/canonicalize.py:175-201 | what an applied split leaves under a slug is the last of its candidates with that slug |
| Canonicalize.StandingIsLeft | src/capability_commons/cli/ingest/canonicalize.py:256-273 | after any run a written name holds what the last decision to write it wrote, or nothing if a later one archived it |
| Canonicalize.ReplacementReachesIff | src/capability_commons/cli/ingest/canonicalize.py:256-273 | for any run and any one replacement in it: what is left is at least as risky as the draft it replaced if and only if the standing decision's own object, or a loaded draft that decision deprecates, has so high a band |
| Canonicalize.RunLowersNoRiskIff | src/capability_commons/cli/ingest/canonicalize.py:256-273 | for any run: what is left under a name that a decision wrote in place of a loaded draft is at least as risky as that draft if and only if the last decision to write the name proposes, or deprecates a loaded draft with, so high a band; files written earlier in the run and archived later are the subject of `Lineage` |
| Canonicalize.DecisionLowersNoRiskIff | src/capability_commons/cli/ingest/canonicalize.py:145-157 | one applied decision lowers no band if and only if it reaches the band of each loaded draft it overwrites without listing it |
| Canonicalize.RunNeverLowersRisk | src/capability_commons/cli/ingest/canonicalize.py:256-275 | in a run with one decision a group that names only members and slugs of its own and lists what it overwrites, everything written is left at the end, at least as risky as each draft it replaced |
| Canonicalize.SharedFreshSlugLowersRisk | src/capability_commons/cli/ingest/canonicalize.py:148-150 | two decisions with one fresh slug: a high-risk replacement ends up low-risk |
| Canonicalize.UnlistedOverwriteLowersRisk | src/capability_commons/cli/ingest/canonicalize.py:148-150 | one merge into the slug of a loaded high-risk draft it does not list leaves that file low-risk |
| Lineage.DecisionLowersNoneIff | src/capability_commons/cli/ingest/canonicalize.py:145-157 | nothing an applied decision writes is less risky than any file it finds and deprecates or overwrites, if and only if its own object or a loaded draft it deprecates has so high a band |
| Lineage.DecisionDropsNoneIff | src/capability_commons/cli/ingest/canonicalize.py:145-157 | the same for the safety boundaries of the files it finds |
| Lineage.RunLowersNoneIff | src/capability_commons/cli/ingest/canonicalize.py:256-273 | the same at every step of any run, against the files found at that step |
| Lineage.HeirsInherit | src/capability_commons/cli/ingest/canonicalize.py:256-273 | when no step lowers a band or drops a boundary, no chain of replacements through the run does |
| Lineage.HeirsAsRiskyIff | src/capability_commons/cli/ingest/canonicalize.py:256-273 | after any run, all that took the place of an original file, through however many replacements, is at least as risky, if and only if the decision that wrote it last has so high a band among its sources |
| Lineage.HeirsKeepBoundaryIff | src/capability_commons/cli/ingest/canonicalize.py:256-273 | and has the original's safety boundary if and only if that decision proposes it, or proposes none and lists it first |
| Lineage.ChainLowersRisk | src/capability_commons/cli/ingest/canonicalize.py:128-157 | two merges, no slug shared, nothing overwritten: the second deprecates what the first wrote and leaves a high-risk draft's heir low-risk |
| Lineage.OverwriteDropsBoundary | src/capability_commons/cli/ingest/canonicalize.py:148-150 | one merge into the slug of a draft it does not list leaves that file without its boundary |
| Lineage.SharedSlugDropsBoundary | src/capability_commons/cli/ingest/canonicalize.py:148-150 | two merges onto one slug drop the boundary of the first |
| Lineage.LeavesHeirIff | src/capability_commons/cli/ingest/canonicalize.py:175-208 | an applied decision leaves something in place of a file it deprecates if and only if it proposes an object with a slug or an id |
| Lineage.NamelessSplit | src/capability_commons/cli/ingest/canonicalize.py:175-208 | a split into a nameless candidate is applied, archives the draft and leaves nothing |
| Lineage.DecisionArchives | src/capability_commons/cli/ingest/canonicalize.py:152-157 | what an applied merge takes from the directory is afterwards in the merge archive as it was, what a split takes in the split archive (lines 203-208); nothing else enters or leaves an archive |
| Lineage.NothingVanishes | src/capability_commons/cli/ingest/canonicalize.py:256-273 | after any run every name there was is in the directory or in an archive |
| Lineage.UnwrittenIsKept | src/capability_commons/cli/ingest/canonicalize.py:256-273 | and a file that no decision writes is there as it was |
| Lineage.OnePerGroupLowersNone | src/capability_commons/cli/ingest/canonicalize.py:223-275 | in a run with one decision a group over the drafts loaded from the directory, each listing what it overwrites, no step lowers the band of any file it finds |
| Seeding.LoadNodes | src/capability_commons/cli/seed.py:237-341 | the node loop seeds each new slug once, and its slug map names the current versions |
| Seeding.EnsureEdge | src/capability_commons/cli/seed.py:365-390 | an edge is added if both ends resolve, its type is known and it is not there; two equal rows found by the check are an error |
| Seeding.Load | src/capability_commons/cli/seed.py:237-570 | node loop, slug lookup and three edge loops compute `SeedGraph` |
| Seeding.AddEdgesSucceeds | src/capability_commons/cli/seed.py:346-355 | without duplicate edges no existence check fails, and none is duplicated |
| Seeding.SeedAddsWantedEdges | src/capability_commons/cli/seed.py:357-568 | exactly the edges the pack asks for are added, each once, however often it asks |
| Seeding.SeedFailsIff | src/capability_commons/cli/seed.py:346-355 | from any graph, loading fails if and only if the pack asks for an edge the graph holds more than once |
| Seeding.RequirementPointsToDependant | src/capability_commons/cli/seed.py:357-389 | "A requires B" becomes an edge from B's current version to A's |
| Seeding.EdgesAreAskedFor | src/capability_commons/cli/seed.py:357-568 | after any successful load the edges are exactly the old ones and those of a requirement, a suggestion or a row of the pack, each in its direction and of its type |
| Seeding.SeedTwiceIsSeedOnce | src/capability_commons/cli/seed.py:237-570 | loading a pack again adds no object, version, edge or event, whatever the graph was |
| Seeding.SeedingIsARun | src/capability_commons/cli/seed.py:264-327 | seeding is a run of the pipeline, so its invariants hold with it |
| Segmenter.FindPage | src/capability_commons/cli/ingest/parse.py:91-99 | the page of the last marker that ends at or before the position |
| Segmenter.PageIsLastMarkers | src/capability_commons/cli/ingest/parse.py:91-99 | the same from the markers alone: the last one that ends at or before the position, or the base page |
| Segmenter.LastContentPos | src/capability_commons/cli/ingest/parse.py:101-122 | the last character that is neither white space nor in a marker; the start if there is none |
| Segmenter.CleanIsEmpty | src/capability_commons/cli/ingest/parse.py:135-137 | empty if and only if the range has no such character |
| Segmenter.MarkdownToSegments | src/capability_commons/cli/ingest/parse.py:124-176 | one segment a heading with its heading path, range and pages; without headings one for the whole text, or none if it is blank |
| Segmenter.PathOf | src/capability_commons/cli/ingest/parse.py:128-133 | a heading path ends in the heading's own title, is no longer than its level and starts with what stood above that level |
| Segmenter.SiblingsReplaceIff | src/capability_commons/cli/ingest/parse.py:131-132 | of two headings of one level with only deeper ones between, the later title takes the earlier one's place if and only if no level was skipped at the earlier one |
| Segmenter.SkippedLevelNests | src/capability_commons/cli/ingest/parse.py:131-132 | two second-level headings and none above: the second is listed under the first |
| Segmenter.SegmentsTile | src/capability_commons/cli/ingest/parse.py:156-174 | segments tile the text from the first heading on with consecutive numbers; with ascending markers pages do not fall within a segment or to the next; the end page is that of the last content |
| Segmenter.WholeStartsOnBasePage | src/capability_commons/cli/ingest/parse.py:139-148 | without headings the start page is the base page, the page of the first content exactly when no marker ends before it or the last that does sets the base page |
| Segmenter.MarkerBeforeText | src/capability_commons/cli/ingest/parse.py:139-148 | a marker for page 7 before the only text: the segment starts on page 1 |
| ResponseCache.ResponseCache.Lookup | src/capability_commons/api/response_cache.py:29-39 | a hit if and only if there is an unexpired entry; an expired one is dropped |
| ResponseCache.ResponseCache.EvictExpired | src/capability_commons/api/response_cache.py:63-68 | exactly the expired entries go |
| ResponseCache.ResponseCache.FindOldest | src/capability_commons/api/response_cache.py:47 | a key of least timestamp |
| ResponseCache.ResponseCache.Store | src/capability_commons/api/response_cache.py:41-50 | eviction in two stages before the entry is added; raises exactly when nothing is left to evict |
| ResponseCache.ResponseCache.Drop | src/capability_commons/api/response_cache.py:52-61 | exactly the matching entries go, and are counted |
| ResponseCache.CacheIsFaithful | src/capability_commons/api/response_cache.py:29-68 | after any run the cache is within its limit and each entry is what was last set for its key since its last invalidation |
| ResponseCache.HitsAreCurrent | src/capability_commons/api/response_cache.py:29-39 | whatever a lookup after any run answers is that value and no older than the time to live |
| ResponseCache.EntrySurvives | src/capability_commons/api/response_cache.py:41-68 | over any stretch of a run an entry stays as it is unless a step sets its key again or gives one of the causes below |
| ResponseCache.StoredIsHit | src/capability_commons/api/response_cache.py:29-50 | so a stored value is hit by every later lookup within the time to live |
| ResponseCache.LossesExplained | src/capability_commons/api/response_cache.py:41-61 | an entry disappears only by expiry, by invalidation, or as a least-timestamp entry while the limit is full of unexpired ones |
| ResponseCache.InvalidatedKeys | src/capability_commons/api/response_cache.py:58 | which prefixes an invalidation hits, both directions |
| ResponseCache.LongerPrefixIsHit | src/capability_commons/api/response_cache.py:58 | invalidating "a" drops what is stored under "a:b" |
| Pagination.PageAfter | src/capability_commons/services/registry.py:442-456 | the page after a cursor is what follows the cursor's object, whatever newer objects were added |
| Pagination.PagesFollow | src/capability_commons/api/routes/objects.py:54-61 | every page of a walk starts where the previous one ended, and its cursor is set exactly when there is more |
| Pagination.WalkVisitsAllOnce | src/capability_commons/api/routes/objects.py:52-66 | a finished walk has visited each object of the first request exactly once, newest first, although newer ones were added, in as few pages as hold them |
| Pagination.WalkIsBounded | src/capability_commons/api/routes/objects.py:59-61 | a next cursor is given exactly while the pages so far do not hold everything |

## Left out

- Chunker.ChunkText: starts from the non-empty paragraphs; collapsing blank lines, splitting and stripping are not part
  of this model, nor is the text assembly of `build_indexable_text`. It asks for an overlap below the chunk size, as the
  one caller has. Of larger overlaps only termination is modelled (`Chunker.LoopEndsIff`), not the chunks.
- Fusion.SearchHybrid: scores are exact numbers where the program uses floating point, and which of two equal scores
  comes first is open. The two rankers are arbitrary duplicate-free rankings. The
  fallback to plain full-text search without a query embedding is not modelled.
- Graph.SelectOutgoing: the order in which the database returns rows is open, so results are stated up to it.
- Entities.EntityService.CreateEdge: only the existence of entity ends is checked; versions, the rules about which edge
  types may join which kinds, and edge attributes other than source, type and destination are not modelled.
- Entities.EntityService.AttachEntity: models one entry of the request's list; role label and primary flag are left out.
- Canonicalize.DraftsDir.ApplyMerge: drafts are files named by slug; lineage, citations and the log are left out, as are
  the decisions themselves, the similarity ratio and the draft schema, which are arbitrary functions or inputs.
- Canonicalize.DraftsDir.ApplySplit: file system errors in the middle of a decision are left out.
- Seeding.Load: nodes come with type, lifecycle, risk band and edge types already resolved and `requires` flattened;
  facets, citations, evidence spans (which are added again on every load) and edge attributes are left out, as is the
  read-only report after the commit.
- Segmenter.MarkdownToSegments: where headings and page markers match is an input, sorted and apart; the cleaned text is
  represented only by whether it is empty.
- Canonicalize.RunLowersNoRiskIff: compares with the drafts loaded before the run only; `Lineage.RunLowersNoneIff` and
  `Lineage.HeirsAsRiskyIff` compare with every file.
- Lineage.HeirsAsRiskyIff: speaks of what took a file's place; that nothing did is the subject of
  `Lineage.LeavesHeirIff`.
- Pagination.PageAfter: cursors are ids; base64, the total count and malformed cursors are left out. Deleted objects do
  not occur.
- ResponseCache.ResponseCache.Store: keys are strings; the digest and the JSON form of parameters are left out.
- Outbox.PollsDrain: one worker, with the same events failing every time; several workers are covered by `Pipeline`,
  which states safety only.
- Services.CatalogStore.PublishVersion: structured-data validation, titles, timestamps, warnings and audit records are
  left out; so are `version_no`, facets and visibility. Event payloads carry the version only.
- Pipeline.IndexedOrAnnounced: service calls and handler transactions are atomic; races between two requests, or between
  a request and the inside of a handler, are not modelled. `index_version` and `delete_version` of the search adapter
  are not part of the runs.
- Provider calls, the network, clocks and random ids become inputs; errors of providers and of the database in a handler
  are the arbitrary failures of `Outbox` and absent steps of `Pipeline`.
- Routes, authentication, configuration, migrations, logging, storage, LLM prompts and calls, PDF conversion, full-text
  ranking and vector distance, answer composition, rate limits and conversation memory are not modelled.
