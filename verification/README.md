# Verified model of the teamshared core

teamshared gives a team's agents one shared memory. This project models, in Dafny, the parts
of it that keep state or transform data under a promise: retention of memory items, the
in-memory candidate cache, versioned shared files and their public mirror, the cadence of the
continual-learning hook, ranking and scope checks of recall, compression of tool output and
chat messages, packing of recalled records into a prompt, and the latency histogram.

Each component is one module. Code that changes things step by step is a class or a method
with loops, proved against a specification function; what the system promises is then proved
about that function, for every input, every reachable state or every run.

| file | module | component |
|---|---|---|
| `retention.dfy` | `Retention` | the policy loop that soft-deletes rows |
| `hnsw_cache.dfy` | `HnswCache` | label bookkeeping of the vector index, hydration, two-phase search |
| `slugs.dfy` | `Decimal`, `Slugs` | slugs of titles and the search for a free one |
| `shared_files.dfy` | `SharedFiles` | files, versions, publication, archive, version deletion |
| `file_mirror.dfy` | `FileMirror` | the copy of published files in the bucket |
| `cadence.dfy` | `Cadence` | when the stop hook asks for a follow-up |
| `stable_sort.dfy`, `rank_fusion.dfy`, `retrieval.dfy` | `StableSort`, `RankFusion`, `Retrieval` | stable sorting, reciprocal rank fusion, the recall pipeline |
| `json_sampling.dfy`, `log_compression.dfy`, `text_compression.dfy` | `JsonSampling`, `LogCompression`, `TextCompression` | compression of one text |
| `json_cleaning.dfy` | `JsonCleaning` | cleaning of tool payloads |
| `ccr.dfy`, `message_compression.dfy` | `Ccr`, `MessageCompression` | the store of originals and the two message compressors |
| `context_pack.dfy` | `ContextPack` | budgeted packing and the rendered pack |
| `histogram.dfy` | `Histogram` | the fixed-bucket histogram and its exposition |
| `records.dfy`, `sets.dfy`, `text.dfy`, `wrappers.dfy` | `Records`, `Sets`, `Text`, `Wrappers` | shared types and facts |

Scores, ratios and clocks are reals. Error patterns, JSON parsing, digests, HTML rendering
and character classes are function parameters, so every statement holds for any choice of them.

## What the code does that its documentation does not say

The model follows the code. Each of these has a proved statement with its exact condition, or
a concrete case, in the table below.

- The order of retention policies can matter, although after a run all of them hold: it is
  immaterial exactly when neither of two neighbours rescues a row announced for the other.
- The slug search of `publish` sees only the caller's organisation, but the slug index is
  unique across organisations, so publishing raises when another one holds the slug.
- The history of a file is not append-only: the next version number is new exactly while the
  current version is the highest ever issued, so deleting the current version makes the next
  update reuse a number.
- Updating a file that is archived but still marked published puts its page back.
- The mirrored snapshot of a deleted version stays in the bucket.
- After deleting the current version, the format kept on the file row can differ from that of
  the version that became current.
- The scope recheck runs after the cut to k, so a dropped record can cost a permitted one its
  place; and the repository boost is applied only to records that survived that cut. Recall
  equals one ranking of everything permitted exactly when the cut is harmless in both respects.
- An episodic or working record younger than 122.4 hours outranks every fused hit that carries
  no bonus.
- An outage of the bucket during an archive is not repaired by archiving again, while
  unpublishing again repairs it; publishing again repairs the page, and the snapshots exactly
  when none of them is stale.
- Storing an original again does not renew its lifetime, so a reference lives with the entry it
  shares.
- A local save of the cadence that fails after truncating its file, or a load that comes back
  empty and is then saved over, loses the memory of earlier follow-ups and of the trial: the
  next follow-up need not be spaced, and a trial can start again. The turn bound still holds.
- Cleaning a text payload of medium length reports a change without making one.
- The log shrinker keeps to its limit only from seven lines on, the array sampler from three
  items on (configuration allows no less than ten and five).
- Compressed bodies are smaller than their originals at any item and line limit, except that
  with a minimum below two characters truncating a text can keep all of it.
- Histogram buckets mean their edges only when the edges are listed in ascending order.

## Model

| member | source | states |
|---|---|---|
| Retention.MemoryItems.EnforceRetention | src/teamshared/admin/retention.py:11-103 | the policy loop: the new table, the entry of every policy with its id, name and count, and the totals of an applied or a dry run, against the sequential specification |
| Retention.MemoryItems.EnforceOne | src/teamshared/admin/retention.py:27-87 | one policy: what it matches, and the table afterwards |
| Retention.RankCounts | src/teamshared/admin/retention.py:44-56 | the row-number query keeps exactly min(n, size) rows, so ranks number the rows 1, 2, 3 and so on |
| Retention.SelectedIff | src/teamshared/admin/retention.py:32-62 | what one policy selects, in the columns of the table: an active row of its kinds that is past the age limit, or that has at least as many newer rows of those kinds as the policy lets live |
| Retention.RunSoftDeletesInPlace | src/teamshared/admin/retention.py:76-87 | an applied run does nothing to a row but soft-delete it at the time of the run: its other fields stay, and every other row is untouched |
| Retention.CandidatesOnlyShrink | src/teamshared/admin/retention.py:32-62 | once rows have been deactivated a policy selects no row it would not have selected before |
| Retention.NoCandidatesIffHolds | src/teamshared/admin/retention.py:32-62 | a policy selects nothing exactly when no eligible row is too old and at most max_items remain |
| Retention.KeepsTheNewest | src/teamshared/admin/retention.py:44-56 | every eligible row a policy leaves is newer than every row it selects |
| Retention.ApplyingEstablishes | src/teamshared/admin/retention.py:76-87 | soft-deleting the selected rows makes the policy hold |
| Retention.EveryPolicyHoldsAfterARun | src/teamshared/admin/retention.py:26-95 | after an applied run every policy holds at once, the early ones included |
| Retention.RunIsIdleIffAllHold | src/teamshared/admin/retention.py:26-95 | a run changes the table exactly when some policy does not hold; an idle run reports zeros |
| Retention.SecondRunDeletesNothing | src/teamshared/admin/retention.py:26-95 | a second run at the same time changes and reports nothing |
| Retention.DryRunBoundsApply | src/teamshared/admin/retention.py:69-87 | per policy, what apply selects is among what the dry run selects, so the dry count is an upper bound |
| Retention.DryRunTotalBoundsApply | src/teamshared/admin/retention.py:69-95 | the dry total is an upper bound of the applied total |
| Retention.DryRunTotalIsExactIff | src/teamshared/admin/retention.py:69-95 | the dry total equals the applied total exactly when no row is announced by two policies and no announced row is spared |
| Retention.AppliedTotalIsTheLoss | src/teamshared/admin/retention.py:76-95 | the applied total is the number of rows that stopped being active: none is counted twice |
| Retention.CountsAreLosses | src/teamshared/admin/retention.py:65-95 | the count of a policy is the number of rows its own turn deactivated, and in a dry run the number it would deactivate alone |
| Retention.ResultsNamePolicies | src/teamshared/admin/retention.py:89-95 | the report has one entry per policy, in their order, with its id, its name and its count |
| Retention.DeletedRowsWereAnnounced | src/teamshared/admin/retention.py:69-87 | every row a run deactivates is selected by some policy on the untouched table |
| Retention.SwapIsImmaterialIff | src/teamshared/admin/retention.py:26-95 | two policies give the same table in either order exactly when neither, run first, rescues a row announced for the other |
| Retention.NeighboursSwapIff | src/teamshared/admin/retention.py:26-95 | the same for two neighbours in any list, whatever policies follow |
| Retention.OnlySharedItemLimitsRescue | src/teamshared/admin/retention.py:32-62 | only an item limit over shared kinds can be rescued from |
| Retention.OrderMatters | src/teamshared/admin/retention.py:26-95 | an illustration: two policies on two rows whose order decides whether a row survives |
| HnswCache.OrgIndex.RemoveLocked | src/teamshared/memory/hnsw_cache.py:83-87 | marks the memory's labels deleted and forgets them; marking never raises in a reachable state |
| HnswCache.OrgIndex.Add | src/teamshared/memory/hnsw_cache.py:65-77 | adding keeps the invariant and replaces the memory's vector in the plain map |
| HnswCache.OrgIndex.AppendLocked | src/teamshared/memory/hnsw_cache.py:67-77 | the next label always fits after the doubling, and becomes the memory's label |
| HnswCache.OrgIndex.Remove | src/teamshared/memory/hnsw_cache.py:79-81 | removing keeps the invariant and drops the memory from the plain map |
| HnswCache.RemovedIsValid | src/teamshared/memory/hnsw_cache.py:83-87 | removal keeps the label maps mutually inverse and the counters exact |
| HnswCache.RemovedContents | src/teamshared/memory/hnsw_cache.py:83-87 | removal is deletion of one key from the plain map |
| HnswCache.AddedIsValid | src/teamshared/memory/hnsw_cache.py:65-77 | remove-then-append keeps the label maps mutually inverse, the counters exact and the capacity bounds |
| HnswCache.AddedContents | src/teamshared/memory/hnsw_cache.py:65-77 | remove-then-append is the update of one key of the plain map |
| HnswCache.SizeOfContents | src/teamshared/memory/hnsw_cache.py:52-63 | `active` is the number of memories and of live labels |
| HnswCache.RunRefinesTheMap | src/teamshared/memory/hnsw_cache.py:65-87 | any run of adds and removes does to the index what it does to a plain map |
| HnswCache.EveryRunIsSound | src/teamshared/memory/hnsw_cache.py:52-87 | from an empty index: the map, the counter and next_label <= capacity <= max(1024, 2*next_label) in every run |
| HnswCache.StepKeepsLabels | src/teamshared/memory/hnsw_cache.py:65-87 | one write leaves a used label its vector; it resolves as before unless its own memory was written |
| HnswCache.RunKeepsLabels | src/teamshared/memory/hnsw_cache.py:65-87 | any run leaves a used label its vector, and it resolves as before unless its own memory was written: labels are never reused for another memory |
| HnswCache.InterleavedSearchNeverMixesMemories | src/teamshared/memory/hnsw_cache.py:89-102 | with arbitrary writes before each lookup, a search returns its locked answer less exactly the memories written before their turn |
| HnswCache.WritesBetweenThePhases | src/teamshared/memory/hnsw_cache.py:89-102 | when writes happen between the two phases, what the second returns is the locked answer in order, less exactly the memories written |
| HnswCache.UndisturbedIsAll | src/teamshared/memory/hnsw_cache.py:97-102 | without writes every label still resolves, so the whole locked answer comes back |
| HnswCache.ResolvedLabelIsCurrent | src/teamshared/memory/hnsw_cache.py:97-101 | a label that still resolves stands for a memory whose vector is still the scored one |
| HnswCache.SnapshotIsNearest | src/teamshared/memory/hnsw_cache.py:89-102 | the locked answer is min(k, size) distinct members, nearest first, none nearer left out |
| HnswCache.KnnQuery | src/teamshared/memory/hnsw_cache.py:89-96 | the exact nearest-neighbour query the cache assumes: n distinct live labels, nearest first |
| HnswCache.Nearest | src/teamshared/memory/hnsw_cache.py:89-96 | the nearest of a set of labels |
| HnswCache.OrgIndex.LockedPhase | src/teamshared/memory/hnsw_cache.py:89-97 | labels and distances found under the lock are the nearest members of the plain map |
| HnswCache.OrgIndex.UnlockedPhase | src/teamshared/memory/hnsw_cache.py:97-102 | exactly the labels that resolve are answered, at their ascending positions, by their owners with the distances scored for them |
| HnswCache.OrgIndex.LookUpLabel | src/teamshared/memory/hnsw_cache.py:98-101 | one round of that loop: the owner of a label with its distance, or nothing when it no longer resolves |
| HnswCache.OrgIndex.ResolveAmongWrites | src/teamshared/memory/hnsw_cache.py:97-102 | the same loop while other threads write before each lookup |
| HnswCache.OrgIndex.SearchAmongWrites | src/teamshared/memory/hnsw_cache.py:89-102 | a search among writes returns the nearest members scored under the lock, less exactly the memories written before their turn |
| HnswCache.OrgIndex.Search | src/teamshared/memory/hnsw_cache.py:89-102 | an undisturbed search answers with the nearest members of the plain map |
| HnswCache.LastRowWins | src/teamshared/memory/hnsw_cache.py:132-149 | hydration keeps, for a memory embedded in several chunks, the vector of its last row only |
| HnswCache.Cache.EnsureHydrated | src/teamshared/memory/hnsw_cache.py:120-149 | reloads an org exactly when it is missing or was built for another model; other orgs are untouched |
| HnswCache.Cache.Hydrate | src/teamshared/memory/hnsw_cache.py:126-149 | installs an index holding exactly the loaded rows |
| HnswCache.Cache.Invalidate | src/teamshared/memory/hnsw_cache.py:162-165 | drops one org and leaves every other as it was |
| HnswCache.Cache.Add | src/teamshared/memory/hnsw_cache.py:151-155 | write-through to a hydrated org, nothing otherwise; no other org changes |
| HnswCache.Cache.Remove | src/teamshared/memory/hnsw_cache.py:157-160 | removal from a hydrated org, nothing otherwise; no other org changes |
| HnswCache.Cache.Search | src/teamshared/memory/hnsw_cache.py:167-174 | answers from the org's own map, or not at all when there is no index |
| Decimal.ValueOfToString | src/teamshared/memory/shared_files.py:246-260 | the decimal suffix of a slug reads back as its number |
| Decimal.NumeralsAreDecimal | src/teamshared/memory/shared_files.py:246-260 | the suffix is digits without a leading zero |
| Decimal.ValueIsPositional | src/teamshared/memory/shared_files.py:246-260 | read in base ten |
| Slugs.SlugifyIsSlug | src/teamshared/memory/shared_files.py:36-38 | a slug is lower-case letters and digits joined by single dashes |
| Slugs.SlugifyFixesExactlySlugs | src/teamshared/memory/shared_files.py:36-38 | slugifying leaves a string alone exactly when it is such a slug |
| Slugs.SlugifyIsIdempotent | src/teamshared/memory/shared_files.py:36-38 | slugifying twice is slugifying once |
| Slugs.SlugOfTitle | src/teamshared/memory/shared_files.py:36-38 | the slug of a title is its words in lower case joined by single dashes, whatever stands around and between them |
| Slugs.CandidatesDiffer | src/teamshared/memory/shared_files.py:246-260 | base, base-2, base-3 and so on are pairwise different |
| Slugs.FreeNumberIsFirst | src/teamshared/memory/shared_files.py:246-260 | the search ends within one probe more than there are taken slugs, at the first free candidate |
| Slugs.FirstFreeIsFreeAndFirst | src/teamshared/memory/shared_files.py:246-260 | the chosen slug is free and every earlier candidate is taken |
| Slugs.FirstFreeCountsFromTwo | src/teamshared/memory/shared_files.py:246-260 | the base itself when it is free, otherwise the base with the least free suffix -2, -3 and so on |
| Slugs.SearchSlug | src/teamshared/memory/shared_files.py:246-260 | the loop of publish finds that slug within the bound |
| Slugs.UniqueProjectSlug | src/teamshared/memory/projects.py:91-102 | the loop of the project store finds that slug within the bound |
| SharedFiles.SharedFileStore.Create | src/teamshared/memory/shared_files.py:64-95 | a new active private file with version 1; nothing else changes |
| SharedFiles.SharedFileStore.Update | src/teamshared/memory/shared_files.py:97-140 | appends version current+1 to a visible file, archived ones included |
| SharedFiles.SharedFileStore.Fetch | src/teamshared/memory/shared_files.py:142-162 | an active file of the org with its current version, or nothing |
| SharedFiles.SharedFileStore.Publish | src/teamshared/memory/shared_files.py:227-272 | token and slug are set once and kept; raises when the new slug violates the unique index, leaving the tables alone |
| SharedFiles.SharedFileStore.Unpublish | src/teamshared/memory/shared_files.py:274-288 | makes a visible file private and keeps its token and slug |
| SharedFiles.SharedFileStore.Archive | src/teamshared/memory/shared_files.py:290-299 | archives an active file once |
| SharedFiles.SharedFileStore.DeleteVersion | src/teamshared/memory/shared_files.py:301-362 | every refusal reason, the removed row and the new current version |
| SharedFiles.GetIsScoped | src/teamshared/memory/shared_files.py:142-162 | only the org that owns an active file gets it, with the version its row names |
| SharedFiles.CreatedReadsBack | src/teamshared/memory/shared_files.py:64-95 | a created file reads back as an active private file of its org, with exactly the given title, content and format as version 1; no other org sees it |
| SharedFiles.WritesAreStored | src/teamshared/memory/shared_files.py:64-140 | an issued version is stored with its text and format, an empty format standing for the one on the row, and becomes the current one; the others keep what they hold |
| SharedFiles.StoredVersionsAreTheIssuedOnes | src/teamshared/memory/shared_files.py:64-362 | over any run every stored version holds exactly the text and format of the create or update that issued its number last |
| SharedFiles.OtherOrgsAreUntouched | src/teamshared/memory/shared_files.py:64-362 | operations of one org leave the files of another as they are |
| SharedFiles.PublishOutcome | src/teamshared/memory/shared_files.py:227-272 | publishing marks an active file published, gives it the new token and slug unless it has one, and changes nothing else; when it raises nothing changes |
| SharedFiles.NewSlugCountsUp | src/teamshared/memory/shared_files.py:246-260 | the new slug is the slugified title, or "file" when that is empty, with the least free suffix |
| SharedFiles.TakenIsHeldInOrg | src/teamshared/memory/shared_files.py:249-256 | taken are the slugs of the other files of the org, archived and private ones included |
| SharedFiles.MarksOnlyItsMark | src/teamshared/memory/shared_files.py:274-299 | unpublishing and archiving change their own mark of a row they apply to, and nothing else |
| SharedFiles.DeletionOutcome | src/teamshared/memory/shared_files.py:301-362 | a version is deleted exactly when it is one of several of an active file of the org; each refusal has its own reason; only deleting the current version moves the file, to the highest version left |
| SharedFiles.MaxVersion | src/teamshared/memory/shared_files.py:335-352 | the highest remaining version number |
| SharedFiles.DeletedHistory | src/teamshared/memory/shared_files.py:301-362 | after deleting a version the history is non-empty and its maximum is current |
| SharedFiles.StepKeepsValid | src/teamshared/memory/shared_files.py:64-362 | every operation keeps: histories non-empty with current as maximum, no orphan versions, tokens and slugs unique, published files have both |
| SharedFiles.EveryRunIsSound | src/teamshared/memory/shared_files.py:64-362 | in every run the next insert never collides and get answers exactly for the active files of the org |
| SharedFiles.StepKeepsVersions | src/teamshared/memory/shared_files.py:97-362 | an operation changes or removes a stored version exactly when it deletes that version |
| SharedFiles.VersionsAreImmutable | src/teamshared/memory/shared_files.py:97-362 | over any run a version keeps its content until it is deleted |
| SharedFiles.HandlesArePermanent | src/teamshared/memory/shared_files.py:227-288 | over any run a token and a slug, once set, never change, across unpublish and republish |
| SharedFiles.IssuedIsContiguous | src/teamshared/memory/shared_files.py:97-140 | in every run the numbers a file's versions ever had are 1 up to some highest one, the current among them |
| SharedFiles.NextIsFreshIff | src/teamshared/memory/shared_files.py:97-140 | in every run the next number was never used exactly when the current version is the highest ever issued |
| SharedFiles.DeletingCurrentSpoilsNext | src/teamshared/memory/shared_files.py:301-362 | that fails right after any deletion of the current version |
| SharedFiles.FreshWithoutSuchDeletions | src/teamshared/memory/shared_files.py:97-362 | and never fails in a run without such a deletion |
| SharedFiles.NumbersAreReused | src/teamshared/memory/shared_files.py:97-140 | whatever is left of the history, deleting the current version and updating stores the new content under a number used before |
| SharedFiles.PublishFailsIffSlugIsHiddenElsewhere | src/teamshared/memory/shared_files.py:246-272 | a first publication raises exactly when another org's file holds the slug that looked free |
| SharedFiles.SameTitleElsewhereRaises | src/teamshared/memory/shared_files.py:246-272 | so a title whose slug another org has taken, and the own org has not, cannot be published |
| SharedFiles.OneOrgNeverRaises | src/teamshared/memory/shared_files.py:227-272 | with one org publishing succeeds exactly for its active files |
| SharedFiles.FormatDriftsOnlyByDeletion | src/teamshared/memory/shared_files.py:335-362 | the row's format stays that of the current version except when the current version is deleted and its successor has another |
| FileMirror.Facade.PublishToBucket | src/teamshared/memory/facade.py:2609-2621 | writes the version snapshot and then the page under the token; nothing, or only the snapshot, when the bucket fails |
| FileMirror.Facade.RemoveFromBucket | src/teamshared/storage/bucket.py:86-108 | removes everything under the token, or nothing, or any part of it when the bucket fails |
| FileMirror.Facade.FileCreate | src/teamshared/memory/facade.py:2289-2321 | effect on tables and bucket together |
| FileMirror.Facade.FileUpdate | src/teamshared/memory/facade.py:2414-2452 | effect on tables and bucket together |
| FileMirror.Facade.FilePublish | src/teamshared/memory/facade.py:2472-2513 | effect on tables and bucket together, and when it raises |
| FileMirror.Facade.FileUnpublish | src/teamshared/memory/facade.py:2515-2539 | effect on tables and bucket together |
| FileMirror.Facade.FileArchive | src/teamshared/memory/facade.py:2541-2567 | effect on tables and bucket together |
| FileMirror.Facade.FileVersionDelete | src/teamshared/memory/facade.py:2569-2607 | effect on tables and bucket together, and the outcome |
| FileMirror.TablesFrame | src/teamshared/memory/shared_files.py:64-362 | an operation on one file leaves every other file and history as it was |
| FileMirror.BucketFrame | src/teamshared/memory/facade.py:2609-2621 | an operation leaves every bucket prefix but its own token's as it was |
| FileMirror.StepKeepsMirrored | src/teamshared/memory/facade.py:2289-2607 | with the bucket up, every operation keeps each active file mirrored exactly when it is published, with its current content |
| FileMirror.MirrorAgreesAfterEveryRun | src/teamshared/memory/facade.py:2289-2607 | so the mirror agrees with the store after every run from nothing |
| FileMirror.PageIsThePublicContent | src/teamshared/memory/facade.py:2609-2621 | the page under a token shows the version that get and the public token lookup answer with |
| FileMirror.HtmlIsVerbatim | src/teamshared/memory/facade.py:2609-2630 | author HTML is shown as it is stored and every other format rendered, in the page and in every snapshot |
| FileMirror.OutagesStayInTheBucket | src/teamshared/memory/facade.py:2609-2621 | an outage never reaches the tables, and a bucket that is down stays as it is |
| FileMirror.WriteOutcomes | src/teamshared/storage/bucket.py:70-84 | a publication sets the page and one snapshot; one that breaks off leaves the old page and the new snapshot |
| FileMirror.RemovalOutcomes | src/teamshared/storage/bucket.py:86-108 | a removal leaves nothing; one that breaks off leaves some of what was there, as it was |
| FileMirror.PublishingHeals | src/teamshared/memory/facade.py:2472-2513 | after any run, failed bucket calls included, publishing again shows the current version |
| FileMirror.RemovingRepairs | src/teamshared/memory/facade.py:2515-2567 | whatever outages left, unpublishing a visible file or archiving an active one leaves it mirrored right |
| FileMirror.ArchivingDoesNotRetry | src/teamshared/memory/facade.py:2541-2567 | archiving an archived file changes nothing, in the bucket neither |
| FileMirror.RepublishingRepairsIff | src/teamshared/memory/facade.py:2414-2621 | mirroring again shows the current version, and repairs the file completely exactly when no snapshot of another stored version is stale |
| FileMirror.UnpublishThenPublishRepairs | src/teamshared/memory/facade.py:2472-2539 | after any history of outages unpublishing and publishing again repairs a file |
| FileMirror.ArchivedPagesComeOnlyFromUpdates | src/teamshared/memory/facade.py:2414-2452 | archived files stay without a page exactly until one that is still published is updated |
| FileMirror.DeletionLeavesItsSnapshot | src/teamshared/memory/facade.py:2569-2607 | every mirrored snapshot keeps a stored version exactly unless a mirrored version is deleted |
| Cadence.ParsePositiveIntReadsNumerals | plugins/teamshared/hooks/continual-learning-stop.ts:193-202 | a numeral reads as its nearest double, exactly up to 2^53; zero and what is not finite read as the fallback |
| Cadence.ParseIntReadsThePrefix | plugins/teamshared/hooks/continual-learning-stop.ts:193-202 | a number is read after leading space, with one sign, up to the first character that is no digit; without a digit there is none |
| Cadence.WhiteSpaceCharacters | plugins/teamshared/hooks/continual-learning-stop.ts:197-197 | the characters it skips as space |
| Cadence.PositiveIntOrFallback | plugins/teamshared/hooks/continual-learning-stop.ts:193-202 | a threshold that is missing, empty, not a number, infinite or not positive takes its fallback, any other stands |
| Cadence.CurrentNameWins | plugins/teamshared/hooks/continual-learning-stop.ts:217-219 | the current variable counts, even an unusable one; the legacy one is read only when that is not set |
| Cadence.DefaultsAndNames | plugins/teamshared/hooks/continual-learning-stop.ts:263-299 | the defaults are 1440 minutes, 3 turns and 15 minutes for the trial and 10 turns and 120 minutes otherwise, each read under its own name |
| Cadence.ThresholdsArePositive | plugins/teamshared/hooks/continual-learning-stop.ts:263-294 | whatever the environment holds, every threshold is at least one |
| Cadence.StoredStateParsesBack | plugins/teamshared/hooks/continual-learning-stop.ts:92-138 | a saved state loads back unchanged exactly when its turn count is not negative |
| Cadence.OtherVersionsAreForgotten | plugins/teamshared/hooks/continual-learning-stop.ts:103-111 | what is not an object of version 1 is read as the default state |
| Cadence.FieldsAreReadApart | plugins/teamshared/hooks/continual-learning-stop.ts:112-138 | an object of version 1 is read field by field, each falling back on its own |
| Cadence.Hook.SaveCadence | plugins/teamshared/hooks/continual-learning-stop.ts:151-157 | a save stores the whole state; one that throws leaves the old state, the new one, or a truncated file that does not parse |
| Cadence.Hook.OnStop | plugins/teamshared/hooks/continual-learning-stop.ts:242-341 | one stop event: the new stored value and whether a follow-up is emitted, saves before emission; loads can fail, or come back empty and count as the default state |
| Cadence.Hook.OnLoaded | plugins/teamshared/hooks/continual-learning-stop.ts:248-333 | the same once the state is loaded |
| Cadence.EventOutcome | plugins/teamshared/hooks/continual-learning-stop.ts:248-336 | what an event that is no duplicate stores, field by field, with and without a follow-up |
| Cadence.ThresholdsSwitchWhenTheTrialEnds | plugins/teamshared/hooks/continual-learning-stop.ts:287-316 | the trial thresholds decide strictly before the configured minutes since the start of the trial have passed, and the regular ones from that instant on or without a trial |
| Cadence.OneEventSpendsTurns | plugins/teamshared/hooks/continual-learning-stop.ts:242-341 | an event adds at most the turn it counts and a follow-up uses up the minimum, however its load and its save end |
| Cadence.FollowUpsAreBoundedByTurns | plugins/teamshared/hooks/continual-learning-stop.ts:242-341 | in every run, however its loads and saves end: follow-ups times the minimum plus waiting turns never exceed counted turns plus those stored at the start |
| Cadence.FollowUpsFromTheStart | plugins/teamshared/hooks/continual-learning-stop.ts:242-341 | the same bound from the default state, in completed turns of the conversation |
| Cadence.SpacedAfterIff | plugins/teamshared/hooks/continual-learning-stop.ts:298-314 | every event that can trigger is the effective minutes after a given follow-up and sees a newer transcript, exactly when the state remembers a run and a transcript no older than it |
| Cadence.StillRemembersIff | plugins/teamshared/hooks/continual-learning-stop.ts:242-341 | one event keeps that memory exactly unless it overwrites what was stored without having seen it, or with a truncated file (up to a trigger that happens to be no earlier) |
| Cadence.FollowUpsAreSpaced | plugins/teamshared/hooks/continual-learning-stop.ts:298-326 | in every run consecutive follow-ups with no loss of memory between them are the effective minutes apart and see strictly newer transcripts; all are, in a run that never loses it |
| Cadence.TornSaveForgetsEverything | plugins/teamshared/hooks/continual-learning-stop.ts:140-157 | after a truncating save, whatever came before, an event triggers exactly when it counts, has a transcript and one turn is enough |
| Cadence.TornSaveSpoilsSpacing | plugins/teamshared/hooks/continual-learning-stop.ts:140-157 | three events in which a truncating save lets a follow-up repeat two seconds later on the same transcript |
| Cadence.SteadyConversationsFireEveryMTurns | plugins/teamshared/hooks/continual-learning-stop.ts:242-341 | when nothing else holds it back, a conversation gets exactly one follow-up every m turns: the trial minimum as long as the trial lasts, the regular one without a trial |
| Cadence.ConversationsOutlastTheirTrial | plugins/teamshared/hooks/continual-learning-stop.ts:242-341 | a conversation that outlasts its trial gets one every trial minimum before the window ends and one every regular minimum from then on, counting the turns left waiting |
| Cadence.TrialStartIsKeptIff | plugins/teamshared/hooks/continual-learning-stop.ts:260-262 | one event keeps the start of the trial exactly unless it loses the memory and does not start another at the same instant |
| Cadence.TrialStartsOnce | plugins/teamshared/hooks/continual-learning-stop.ts:260-296 | in a run that does not lose it the trial window never moves: once it has passed the regular thresholds apply in every later state |
| Cadence.ReplayIsIdleIff | plugins/teamshared/hooks/continual-learning-stop.ts:248-252 | repeating a stored generation changes and emits nothing, exactly when the repetition does not load an empty state |
| StableSort.SortDescends | src/teamshared/memory/retrieval.py:330-330 | sorting in reverse by score orders by descending score |
| StableSort.SortIsStable | src/teamshared/memory/retrieval.py:330-330 | records with equal scores keep their input order |
| StableSort.StableSortIsUnique | src/teamshared/memory/retrieval.py:330-330 | a descending stable arrangement is the only one, so the sort stands for any stable sort |
| StableSort.SortCommutesWithFilter | src/teamshared/memory/retrieval.py:317-362 | dropping records before or after sorting is the same |
| StableSort.TopKAbsorbs | src/teamshared/memory/facade.py:341-361 | cutting to the best k before more records arrive loses nothing, ties included |
| StableSort.SortedCutIsTopIff | src/teamshared/memory/facade.py:2728-2764 | keeping some records and sorting them is taking the best k of all exactly when enough are kept, nothing lost beats anything kept, and ties are kept in order |
| RankFusion.ReciprocalRankFusion | src/teamshared/memory/hybrid.py:12-38 | the dictionary loops produce the ranked union with exact scores and first records |
| RankFusion.MergeVectorKeyword | src/teamshared/memory/hybrid.py:41-46 | the same for the vector and keyword lists with k = 60 |
| RankFusion.IdsAreTheUnion | src/teamshared/memory/hybrid.py:23-29 | every id of every list appears once |
| RankFusion.EveryListTakesPart | src/teamshared/memory/hybrid.py:24-29 | those ids are the ids of all the lists |
| RankFusion.ScoreAddsUp | src/teamshared/memory/hybrid.py:24-26 | the fused score adds 1/(k + rank) for every list that holds the id and nothing for the others |
| RankFusion.FirstRecordWins | src/teamshared/memory/hybrid.py:27-28 | of several records with one id the first one met is kept |
| RankFusion.MergedRecord | src/teamshared/memory/hybrid.py:31-37 | a merged record is that one with its fused score, repeated under "rrf_score"; everything else of it is as it came |
| RankFusion.FusionIsTheRankedUnion | src/teamshared/memory/hybrid.py:30-38 | the output has exactly the union of the ids, without repeats, by descending score |
| RankFusion.HigherScoreRanksFirst | src/teamshared/memory/hybrid.py:30-38 | a higher score means an earlier place |
| RankFusion.ListScore | src/teamshared/memory/hybrid.py:25-27 | in a duplicate-free list a record earns 1/(k+rank) |
| RankFusion.AheadEverywhereEndsAhead | src/teamshared/memory/hybrid.py:12-38 | a record ahead of another in every list the other appears in ends ahead of it |
| RankFusion.BothOutranksOne | src/teamshared/memory/hybrid.py:12-46 | for two duplicate-free lists of at most k+1, a record in both outranks one in only one |
| RankFusion.BothAlwaysWinIff | src/teamshared/memory/hybrid.py:12-46 | that length is exact: it always holds for lists up to n if and only if n <= k+1 |
| Retrieval.NormalizeFtsScores | src/teamshared/memory/retrieval.py:298-314 | rewrites the scores in place by rank and keeps the raw rank in the metadata |
| Retrieval.NormalizedIsTheFusionScale | src/teamshared/memory/retrieval.py:298-314 | the new score is what fusing that one list would give |
| Retrieval.NormalizedKeepsTheRest | src/teamshared/memory/retrieval.py:308-313 | a normalized hit scores 1/(60 + rank), keeps its raw rank under "fts_rank", and is otherwise as it was |
| Retrieval.LexicalPillarsInOrder | src/teamshared/memory/retrieval.py:129-175 | the lexical pillars follow in a fixed order, each whole and in its own order |
| Retrieval.PillarTable | src/teamshared/memory/retrieval.py:46-54 | the weight of each pillar; a missing score counts as 0.5 |
| Retrieval.BonusesAdd | src/teamshared/memory/retrieval.py:320-328 | a tenth of the importance, and 4.8/(24 + age in hours) for dated episodic and working records, are added to the weighted score |
| Retrieval.TagsBoost | src/teamshared/memory/facade.py:2749-2762 | recall multiplies the weighted score, not the bonuses, by 1.3 for each of the two tags of the caller |
| Retrieval.RecheckScope | src/teamshared/memory/retrieval.py:333-362 | keeps exactly the permitted records, in order |
| Retrieval.RecheckKeepsExactly | src/teamshared/memory/retrieval.py:344-358 | what the recheck lets pass, scope by scope: records without a scope, shared ones for callers who include them, and those of the own org, user, agent, teams and projects |
| Retrieval.Candidates | src/teamshared/memory/retrieval.py:84-180 | fused hits followed by the normalized lexical hits of each requested pillar |
| Retrieval.NormalizedHits | src/teamshared/memory/retrieval.py:298-314 | the hits of one pillar normalized, or none when it is not asked for |
| Retrieval.Search | src/teamshared/memory/retrieval.py:180-213 | rank, cut to k, then recheck |
| Retrieval.Recall | src/teamshared/memory/facade.py:341-361 | adds working memory to the search result, ranks and cuts again, at a time of its own |
| Retrieval.TwoStageIsOneStage | src/teamshared/memory/facade.py:341-361 | with the same scores in both stages and no dropped record, ranking twice equals ranking everything once, as sequences |
| Retrieval.UntaggedScoresAreTheSame | src/teamshared/memory/facade.py:2728-2764 | the scores are the same for unboosted records when the clock stands still between the stages or no record earns a recency bonus |
| Retrieval.RecheckAfterCutIffHarmless | src/teamshared/memory/retrieval.py:180-213 | with the same scores in both stages, for every working memory the two agree exactly when the cut dropped nothing it should keep: nothing forbidden above it or nothing permitted below |
| Retrieval.CutThenRecheck | src/teamshared/memory/retrieval.py:180-213 | the search returns the best k permitted records exactly under that condition |
| Retrieval.SearchIsRanked | src/teamshared/memory/retrieval.py:317-362 | with the same scores in both stages the search result is already in recall order |
| Retrieval.SearchIsSafe | src/teamshared/memory/retrieval.py:180-213 | at most k records, all permitted, all candidates |
| Retrieval.SearchReturnsOnlyTheCallers | src/teamshared/memory/retrieval.py:180-213 | a record that is not shared leaves the search only for a caller it belongs to, and one of any other scope never |
| Retrieval.OtherUsersDoNotMatter | src/teamshared/memory/retrieval.py:333-362 | callers who differ only in who they are get the same answer from candidates of which none belongs to either |
| Retrieval.StagesAgreeIff | src/teamshared/memory/facade.py:341-361 | with no assumption on boosts, scopes, ties or the clocks of the two stages: recall equals one ranking of everything permitted, for every working memory, exactly when the first cut is harmless |
| Retrieval.BoostSurvivesCutIff | src/teamshared/memory/facade.py:2728-2764 | with every candidate permitted, exactly when no record past rank k under the durable score outranks one of those k under the boosted score and ties keep candidate order |
| Retrieval.BoostComesTooLate | src/teamshared/memory/facade.py:2728-2764 | an illustration: two records and k = 1 where the boosted one loses to the early cut |
| Retrieval.RecencyOutweighsRelevanceIff | src/teamshared/memory/retrieval.py:317-330 | the recency bonus of an episodic or working record exceeds the best possible fused score exactly below 122.4 hours of age, future dates included |
| Retrieval.RecentRecordsOutrankFusedHits | src/teamshared/memory/retrieval.py:317-330 | so such a record outranks every fused hit without a bonus, however poorly it matches |
| JsonSampling.HeadAndTailFit | src/teamshared/compress/smart_crusher.py:45-47 | head, tail and budget add up to max_items exactly from three on |
| JsonSampling.SampleShares | src/teamshared/compress/smart_crusher.py:41-47 | head and tail are three tenths and three twentieths of the limit, rounded down but at least one; an array within the limit stays whole |
| JsonSampling.Picked | src/teamshared/compress/smart_crusher.py:53-59 | the picked positions lie in the middle, ascend and fill the budget |
| JsonSampling.SampleIsASubsequence | src/teamshared/compress/smart_crusher.py:33-61 | the sample is an order-preserving selection containing the head and the tail |
| JsonSampling.SampleHasExactSizeIff | src/teamshared/compress/smart_crusher.py:33-61 | a longer array is cut to exactly max_items if and only if max_items is at least three |
| JsonSampling.NothingDroppedOutscores | src/teamshared/compress/smart_crusher.py:53-59 | no dropped middle item scores above a kept one |
| JsonSampling.DroppedItemsAreBehind | src/teamshared/compress/smart_crusher.py:24-59 | what is dropped is behind what is kept: errors go first, then longer texts up to a thousand characters, then earlier items |
| JsonSampling.ErrorsSurvive | src/teamshared/compress/smart_crusher.py:24-59 | all error items of the middle are kept when they fit the budget |
| JsonSampling.ErrorItemsSurvive | src/teamshared/compress/smart_crusher.py:24-61 | so every error item of the array is in the sample |
| LogCompression.HeadAndTailFit | src/teamshared/compress/engine.py:76-78 | head, tail and budget add up to max_lines exactly from seven on |
| LogCompression.LogShares | src/teamshared/compress/engine.py:73-78 | head and tail are a quarter and three twentieths of the limit, rounded down but at least three; a log within the limit stays whole |
| LogCompression.ErrorLinesInOrder | src/teamshared/compress/engine.py:79-79 | the error lines are those that match, each as often as it stands there, in order |
| LogCompression.DedupTakesFirsts | src/teamshared/compress/engine.py:81-88 | lines are picked once each, at their first appearance, in order of appearance |
| LogCompression.ErrorsArePickedFirst | src/teamshared/compress/engine.py:83-88 | distinct error lines of the whole log come before anything else, as many as fit |
| LogCompression.WithoutErrorsTheMiddleIsPicked | src/teamshared/compress/engine.py:80-88 | without error lines the distinct lines between head and tail are picked |
| LogCompression.TheBudgetIsSpent | src/teamshared/compress/engine.py:83-88 | the budget is spent, or every error line and every line between head and tail is picked |
| LogCompression.PickLines | src/teamshared/compress/engine.py:81-88 | the picking loop takes the first distinct candidates up to the budget |
| LogCompression.CompressLogLines | src/teamshared/compress/engine.py:72-95 | the kept lines, and that a change is reported exactly for longer logs |
| LogCompression.ShrunkKeepsHeadAndTail | src/teamshared/compress/engine.py:72-95 | at most max_lines lines of the input: the head, pairwise distinct lines, the tail |
| LogCompression.LimitIsRespectedIff | src/teamshared/compress/engine.py:76-89 | every longer log ends within the limit if and only if the limit is at least seven |
| LogCompression.ErrorLinesSurvive | src/teamshared/compress/engine.py:79-88 | every error line is kept when the distinct ones fit the budget |
| TextCompression.SamplingShortensIff | src/teamshared/compress/smart_crusher.py:72-92 | the JSON arm fires exactly for arrays longer than both max_items and three |
| TextCompression.CompressorOfText | src/teamshared/compress/engine.py:98-127 | which compressor each text gets, and with what: exactly when |
| TextCompression.TargetIsTheLarger | src/teamshared/compress/engine.py:116-117 | the target is the minimum or the configured share of the length, whichever is larger, in whole characters |
| TextCompression.TruncationDropsTextIff | src/teamshared/compress/engine.py:118-127 | truncation keeps half of the target at either end, and drops text exactly when the target is at least two |
| TextCompression.CompressionAlwaysReducesIff | src/teamshared/compress/engine.py:98-127 | every changed body has fewer items, lines or characters than its original, for every text and at any item and line limit, exactly when the minimum is at least two characters or plain text is never truncated |
| TextCompression.BodiesKeepTheirLimitsIff | src/teamshared/compress/engine.py:98-127 | every changed body keeps the limit of its kind, for every text, exactly from three items and seven lines on, with the same proviso |
| JsonCleaning.StripReachesNormalForm | src/teamshared/compress/tool_output.py:99-105 | afterwards no dict value is null or an empty container; a value is left alone exactly when it is already so; twice is once |
| JsonCleaning.StripKeepsLeaves | src/teamshared/compress/tool_output.py:99-105 | the sequence of non-null scalar leaves is preserved |
| JsonCleaning.FieldsAreStrippedOneByOne | src/teamshared/compress/tool_output.py:99-103 | a field is left out exactly when its value is null or strips to an empty container; the others keep their key and order |
| JsonCleaning.ItemsAreStrippedOneByOne | src/teamshared/compress/tool_output.py:104-106 | in a list only nulls are left out; scalars stay as they are |
| JsonCleaning.Truncate | src/teamshared/compress/tool_output.py:60-63 | a truncated string fits the limit and a fitting one is unchanged |
| Text.RStripCutsSpace | src/teamshared/compress/tool_output.py:60-63 | rstrip keeps the prefix that ends in the last character that is not stripped |
| JsonCleaning.TruncationKeepsTheBeginning | src/teamshared/compress/tool_output.py:60-63 | a longer string keeps its beginning up to one short of the limit, less the space at that end, and gains an ellipsis |
| JsonCleaning.RecordsAreCleanedFieldByField | src/teamshared/compress/tool_output.py:66-79 | vectors and raw payloads go, the three text fields are truncated to the record limit, every other field stays |
| JsonCleaning.RecallResultsAreCleanedFieldByField | src/teamshared/compress/tool_output.py:82-96 | the records and episodes of a recall result are cleaned one by one, "rendered" and "answer" truncated to twice and three times the limit, everything else stays |
| JsonCleaning.WhatCountsAsRecall | src/teamshared/compress/tool_output.py:117-123 | a recall result is what one of five tools returns, under whatever prefix, and anything that lists records or episodes |
| JsonCleaning.CleanToolPayload | src/teamshared/compress/tool_output.py:108-138 | the cleaned payload and the change flag |
| JsonCleaning.CleaningByKind | src/teamshared/compress/tool_output.py:108-138 | what happens to a payload of each kind |
| JsonCleaning.ObjectsReportTheirChanges | src/teamshared/compress/tool_output.py:120-134 | for an object a change is reported exactly when there is one |
| JsonCleaning.CleaningObjectsIsIdempotent | src/teamshared/compress/tool_output.py:66-138 | cleaning a dict gives a normal form that a second cleaning reports unchanged |
| JsonCleaning.CleanedTextReportsChangesAgain | src/teamshared/compress/tool_output.py:108-138 | for text payloads the second cleaning reports a change exactly above the limit, and when the first one does so without changing |
| JsonCleaning.PlainPayloadsKeepLeaves | src/teamshared/compress/tool_output.py:108-138 | a payload that is no recall result keeps all its leaves |
| Ccr.CcrStore.PutOriginal | src/teamshared/compress/ccr_store.py:31-39 | stores under the scoped key unless a live entry is there, and returns the reference |
| Ccr.CcrStore.Retrieve | src/teamshared/compress/ccr_store.py:41-47 | the live entry of the scope and reference, or nothing |
| Ccr.KeysAreApart | src/teamshared/compress/ccr_store.py:28-29 | keys of different scopes or references never coincide |
| Ccr.ShapeOfReferences | src/teamshared/compress/ccr_store.py:17-47 | a reference names eight characters of the scope and sixteen of the digest and is kept under a key of the full scope; what does not look like one finds nothing |
| Ccr.ShortScopesAreNamedWhole | src/teamshared/compress/ccr_store.py:17-18 | shorter scopes are named whole |
| Ccr.PutOutcome | src/teamshared/compress/ccr_store.py:31-39 | a put leaves every other key alone, and its own while its entry is alive; otherwise it stores the content with a new lifetime |
| Ccr.PutThenGet | src/teamshared/compress/ccr_store.py:31-47 | what a get returns at any later time after one put |
| Ccr.FullLifetimeIff | src/teamshared/compress/ccr_store.py:31-47 | a put is served for its whole lifetime exactly when the key was free or held the same content that long |
| Ccr.RunsAreSound | src/teamshared/compress/ccr_store.py:31-47 | every entry of every reachable store comes from some put |
| Ccr.RetrievedWasPutByTheSameScope | src/teamshared/compress/ccr_store.py:31-47 | what a scope retrieves, that scope put, under that reference, within the lifetime |
| Ccr.ReferencesReturnTheirOriginals | src/teamshared/compress/ccr_store.py:17-47 | without a digest collision a reference returns its original or nothing, ever |
| Ccr.ServedIffStoredRecently | src/teamshared/compress/ccr_store.py:31-47 | a key is served at a time exactly when a put that found it free did so within the lifetime |
| Ccr.RefLivesWithItsEntry | src/teamshared/compress/ccr_store.py:31-47 | in any run with a forward clock a reference returns its original exactly while an entry stored under it lasts, and nothing otherwise |
| Ccr.SharesAnEntry | src/teamshared/compress/ccr_store.py:31-39 | the entry a put shares was stored by it or an earlier put and is alive at that time |
| Ccr.GoodWhenHandedOut | src/teamshared/compress/ccr_store.py:31-47 | a reference returns its original at the moment it is handed out, after any history |
| Ccr.LatePutIsNotRenewed | src/teamshared/compress/ccr_store.py:31-39 | a put just before expiry is gone one second later |
| MessageCompression.CompressMessages | src/teamshared/compress/engine.py:130-174 | the loop of the plain arm |
| MessageCompression.CompressOne | src/teamshared/compress/engine.py:141-168 | one message of the plain arm |
| MessageCompression.CompressMessagesWithCcr | src/teamshared/compress/engine.py:177-223 | the loop of the arm with references, and what it leaves in the store, each put at its own time |
| MessageCompression.CompressOneWithCcr | src/teamshared/compress/engine.py:189-217 | one message of the arm with references |
| MessageCompression.ContextPacksHoldTheMarker | src/teamshared/compress/engine.py:17-23 | a context pack is a text with the marker anywhere in it |
| MessageCompression.PlainArmOutcome | src/teamshared/compress/engine.py:141-168 | messages of the user, context packs and messages without text come out as they went in; every other one that compresses comes out with its compressed text |
| MessageCompression.CcrArmOutcome | src/teamshared/compress/engine.py:189-217 | the same with references, where the compressed text loses its trailing space and gains the line of its reference |
| MessageCompression.OneMoreIsCounted | src/teamshared/compress/engine.py:157-166 | what one message adds to the counters of either arm |
| MessageCompression.ArmsAgree | src/teamshared/compress/engine.py:130-223 | both arms change the same messages, differ by trailing whitespace and the reference line, and there is one reference per touched message |
| MessageCompression.LiveStaysLive | src/teamshared/compress/ccr_store.py:31-39 | later puts leave an entry alone until it expires |
| MessageCompression.PutOfMessage | src/teamshared/compress/engine.py:205-209 | a touched message's original is put in its place, in the caller's scope, at its own time |
| MessageCompression.PutsAreCounted | src/teamshared/compress/engine.py:205-209 | nothing else is put |
| MessageCompression.EveryEmittedRefRetrievesItsOriginal | src/teamshared/compress/engine.py:205-209 | over any run of calls with a forward clock, every reference ever emitted returns its original exactly while an entry stored under it lasts; the one it shared was alive when it was handed out |
| ContextPack.EstimateTokens | src/teamshared/memory/context_assembler.py:74-78 | the least positive number of four-character tokens that covers the text |
| ContextPack.PackRecords | src/teamshared/memory/context_assembler.py:123-140 | keeps the longest prefix that fits the budget, or the first record alone, and reports its cost |
| ContextPack.UsedAddsUp | src/teamshared/memory/context_assembler.py:133-139 | the cost of records is the sum of their costs |
| ContextPack.LargerBudgetExtends | src/teamshared/memory/context_assembler.py:123-140 | the kept prefix is determined by the budget, is never empty unless there are no records, has at most one record per token of budget (or is a single record), and is only extended by a larger budget |
| ContextPack.PackingAgainKeepsAll | src/teamshared/memory/context_assembler.py:123-140 | packing a pack again under the same budget keeps all of it |
| ContextPack.GroupBySection | src/teamshared/memory/context_assembler.py:149-151 | the dictionary of sections holds each section's records in rank order, keys by first appearance |
| ContextPack.RenderPack | src/teamshared/memory/context_assembler.py:143-166 | the rendering loops produce the specified lines |
| ContextPack.EachRecordIsListedInItsSection | src/teamshared/memory/context_assembler.py:143-166 | reading under any heading gives exactly that section's records, in rank order |
| ContextPack.SectionOfRecord | src/teamshared/memory/context_assembler.py:119-120 | records of the graph have ids that start with "graph:"; all others go by their pillar |
| ContextPack.SectionAppends | src/teamshared/memory/context_assembler.py:149-151 | a section holds its records in rank order |
| ContextPack.KeysFollowFirstAppearance | src/teamshared/memory/context_assembler.py:149-151 | a section listed before another had a record before the other had any |
| ContextPack.SectionsPartitionRecords | src/teamshared/memory/context_assembler.py:119-120 | a record counts in its own section as often as it was kept and in no other |
| ContextPack.SectionsAreRenderedOnce | src/teamshared/memory/context_assembler.py:153-165 | every section in use is rendered exactly once |
| ContextPack.LinesAreAccountedFor | src/teamshared/memory/context_assembler.py:149-166 | a pack is its header and a blank line, one line per record, and for every section its heading and the blank line that closes it: nothing else |
| ContextPack.HeadingsAreTheSectionOrder | src/teamshared/memory/context_assembler.py:153-165 | the headings met from the top are the section order |
| ContextPack.KnownSectionsComeFirst | src/teamshared/memory/context_assembler.py:48-51 | known pillars come first and in their fixed order |
| ContextPack.OtherSectionsFollowAppearance | src/teamshared/memory/context_assembler.py:161-165 | sections of other names follow in the order in which their first records were kept |
| ContextPack.SnippetIsOneBullet | src/teamshared/memory/context_assembler.py:102-116 | a snippet starts with a dash, and is one line exactly when its provenance suffix is, whatever the content holds |
| ContextPack.ShortContentIsShownWhole | src/teamshared/memory/context_assembler.py:102-116 | stripped content of up to 240 characters is shown whole, with newlines as spaces, and then the provenance |
| ContextPack.LongContentIsCut | src/teamshared/memory/context_assembler.py:104-106 | longer content is cut at 239 characters, loses the space at that end and gains an ellipsis |
| ContextPack.LineTexts | src/teamshared/memory/context_assembler.py:145-165 | the text of each kind of line |
| ContextPack.EmptyPackText | src/teamshared/memory/context_assembler.py:145-147 | a pack without records is its header and one sentence |
| ContextPack.RenderedTextReadsBack | src/teamshared/memory/context_assembler.py:143-166 | the text splits back into the header and exactly the rendered lines; below the header only headings look like headings |
| ContextPack.TextIsUnambiguousIff | src/teamshared/memory/context_assembler.py:143-166 | there is one line of text per rendered line exactly when the header is one line: a task with a newline inside adds lines of its own at the top |
| Histogram.Metric.Observe | src/teamshared/metrics.py:76-87 | counts one value under its labels and keeps the object true to its history |
| Histogram.Metric.Render | src/teamshared/metrics.py:89-103 | the exposition follows from the history alone, without counters |
| Histogram.Metric.RenderKey | src/teamshared/metrics.py:91-102 | the lines of one label set |
| Histogram.LinesOfALabelSet | src/teamshared/metrics.py:92-102 | with ascending edges: one bucket per edge, in order, that counts the values at or below it, the "+Inf" bucket, the sum and the count |
| Histogram.ValuesAppend | src/teamshared/metrics.py:76-87 | the values of a label set are those observed under it, in order |
| Histogram.TotalAdds | src/teamshared/metrics.py:79-79 | the sum is that of the values |
| Histogram.ExpositionIsInBlocks | src/teamshared/metrics.py:91-102 | the lines of every label set are listed whole, one label set after the other |
| Histogram.RunningSumCountsValues | src/teamshared/metrics.py:76-97 | the running sum is the number of values at or below the highest edge so far |
| Histogram.SlotsPartitionValues | src/teamshared/metrics.py:76-102 | every value is counted in exactly one slot |
| Histogram.BucketsMeanTheirEdgesIff | src/teamshared/metrics.py:76-97 | a bucket counts the values up to its edge, for every history, exactly when edges ascend |
| Histogram.BucketsNeverFall | src/teamshared/metrics.py:92-102 | bucket values never fall, and "+Inf" equals _count equals the number of values |
| Histogram.LabelsAreListedOnce | src/teamshared/metrics.py:91-102 | each label set is listed once |
| Histogram.LabelsFollowFirstObservation | src/teamshared/metrics.py:91-102 | in the order in which they were first observed |
| Histogram.OtherLabelsKeepTheirLines | src/teamshared/metrics.py:76-87 | observing under one label set leaves the lines of every other alone |

## Left out

- Postgres, Redis, HTTP, object storage, Neo4j, the tool server and the language models: each statement or call is kept only as its effect on a table, map or list.
- Retention report fields: the organisation id and the echoed dry-run flag.
- hnswlib's approximate graph search and float rounding: the index answers exactly, over reals. Parsing of vector text is not modelled.
- Hydration that races with writes or with a change of model: the select and the install are one step.
- HnswCache.OrgIndex.Search: covers a search without writes between its phases; `SearchAmongWrites` is the one with them, where each round of writes is whole.
- Timestamps, author labels and upload handling of shared files; listing and the public lookups other than by token.
- Token and file-id generation: fresh values are parameters, and runs assume the generator does not repeat one.
- Cadence.Hook.OnStop: reading the event is taken to succeed; boolean parsing is a parameter, and the file and HTTP backends are kept as the ways a load or a save can end.
- Score explanation metadata, query planning of recall, the summarising of returned records, the tag normalisation of repositories and issues, and the audit of a search.
- MessageCompression.CompressMessages: message content is a string; content made of several blocks is not modelled, where the source joins all blocks but replaces one.
- MessageCompression.CompressOne: the same.
- MessageCompression.CompressMessagesWithCcr: the same.
- MessageCompression.CompressOneWithCcr: the same.
- TextCompression.CompressionAlwaysReducesIff: sizes are those of the kept items, lines or characters; the note in front of a compressed body, which can outweigh a small cut, is not counted.
- LogCompression.CompressLogLines: works on lines; the splitting of text into lines is a parameter.
- JSON text: parsing and serialising are parameters, so a sampled item is its value, its length and whether it matches the error pattern.
- ContextPack.RenderedTextReadsBack: the provenance suffix of a snippet is a parameter and is taken to hold no newline, which an agent name with one would break.
- The text of the histogram's sample lines (label quoting, number formatting), counters and gauges.
- Session flow, work items, vector store, wiki, permissions, invites, quotas, connectors, encryption, PII patterns and the command line: other components, or short branch checks.
