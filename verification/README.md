# Verified models of the repository graph cache, the completion protocol and the answer streams

This project models four parts of the code base and proves what they promise.

* **The repository graph cache and its write-back layer.** A cache of repository graphs with a time to live and a
  least-recently-used bound, whose entries carry indexes derived from the graph: dependents, imports and the
  transitive dependents found by a breadth-first search. Mutators fold file changes, merge commits into a bounded
  newest-first list and recompute ownership. A subclass keeps a set of keys that still have to reach the database.
* **The inline-completion request protocol.** Debounce, supersede, cancel, and the sharing of running requests, in the
  provider and in the router below it.
* **The streaming of answers.** The Server-sent events reader, the gate that holds a fast answer back, and the
  two-phase review with its usage accounting.
* **Scanners, ranking and selection.** The bracket check and the comment/string scanner, the ranking pipeline for
  suggestions, overlap cutting, class body extraction, and the token pool.

Each component follows one plan. Functions on values say what one operation computes; lemmas prove what those
functions mean against definitions that do not mention them (reachability, embeddings, grammars, runs); and a class
or a method with the loops and the fields of the source is proved to compute exactly those functions. State machines
are stated over their events, and their invariants over every run; what each step brings about is proved beside them.

| file | source it models |
|---|---|
| `Collections.dfy` | insertion-ordered maps, `filter`, stable sort: what the other files share |
| `GraphModel.dfy`, `GraphIndexes.dfy`, `NewestFirst.dfy`, `FileFold.dfy`, `FileOwnership.dfy`, `FileSearch.dfy` | the parts of `src/cache/graphCache.ts` |
| `CacheMemory.dfy`, `CacheMutators.dfy`, `GraphCache.dfy` | the cache itself: its bound, its mutators, its class |
| `WriteBack.dfy`, `WriteBackEffects.dfy`, `PersistingGraphCache.dfy` | `src/cache/graphCachePostgres.ts` |
| `InlineSchedule.dfy`, `InlineEffects.dfy` | `src/autocomplete/coopAutocompleteProvider.ts` |
| `CompletionRouter.dfy` | `src/autocomplete/completionRouter.ts` |
| `SseReader.dfy` | `src/api/CoopBackendClient.ts`, `src/api/chatApi.ts` |
| `OutputGate.dfy` | `src/chat/chatResponseTiming.ts` |
| `BlastReview.dfy` | `src/chat/blastRadiusSourceReview.ts` |
| `Brackets.dfy` | `src/autocomplete/contextAnalyzer.ts` |
| `CompletionFilter.dfy`, `CompletionText.dfy` | `src/autocomplete/completionFilter.ts` |
| `TokenPool.dfy`, `TokenEffects.dfy` | `src/api/tokenPool.ts` |

## Assumptions

* Times are integers and each call reads the clock once. Where a property needs it, the clock does not go back.
* Paths are compared by a given order (`localeCompare` is not modelled); lower-casing and trimming in the graph cache
  are given functions.
* Database statements take effect in the order they were issued, no query fails, rows were written by this cache, and
  a load reads and stores in one step. `WriteBack.LateLoadCoherent` says exactly what happens without the last.
* A settling promise and its `finally` clause are one step.
* Org ids are free of NUL where a property says so; `GraphModel.CacheKeyCollision` says exactly what happens otherwise.

## What the proofs found

Where the code does not do what one would expect, the model keeps the code and a lemma says exactly what it does, in
most cases with the condition under which the expectation holds.

* Two tenants share one cache entry exactly when one org id continues the other after a NUL
  (`GraphModel.CacheKeyCollision`).
* The breadth-first search skips empty paths, so it finds every chain of dependencies exactly when no edge starts at
  one (`GraphIndexes.ChainsNeedPaths`, `GraphIndexes.EmptyPathHidesDependents`).
* In the file search an exact path match outranks every other file exactly for patterns of up to 25 characters; from 26
  on a scattered match with a single gap scores higher (`FileSearch.ExactMatchFirst`).
* Two batches of commits need not be one batch if the second rewrites a known sha
  (`CacheMutators.RewrittenShaBreaksBatches`); `CacheMutators.AddCommitsTwiceExactly` says when they are.
* Two batches of file changes keep the dependencies of one batch exactly when none of them left the tree in between
  (`CacheMutators.UpdateFilesTwice`, `CacheMutators.ReaddedFileLosesEdge`).
* A write that is still pending when its entry is evicted is never persisted (`WriteBack.EvictedWriteIsLost`), and
  loading an organisation replaces a resident graph whose own write still waits (`WriteBack.HydrateReplacesPending`).
* A scheduled request joins another's execution only when that other request has already been aborted
  (`InlineSchedule.JoinedExecutionsWereAborted`). This is about the join inside `scheduleRequest`; two shortcuts before
  it hand a running execution's promise to a call without scheduling a request.
* In the router, a fetch whose starting call gave up can still be joined, and then answers a live caller with nothing
  but an error (`CompletionRouterModel.AbandonedFetchIsShared`).
* An execution that rejects leaves its request unresolved until a later request supersedes it
  (`InlineSchedule.SettleAnswers`).
* A usage callback that throws cuts the partial reports short; otherwise every known usage is counted exactly once
  (`BlastReview.StreamSourceGroundedBlast`).
* A cancel that is lifted after the gate's timer fired strands the queued text (`OutputGate.LiftedCancelStrandsQueue`);
  a cancel that is for good strands nothing (`OutputGate.NothingStranded`).
* The bracket check and the lexical scanner disagree exactly on texts with a quote inside a comment or an escaped
  backslash directly before a closing quote (`Brackets.ScannersAgree`, `Brackets.EscapedBackslashDisagrees`).
* The first suggestion under a key hides all later ones, also when it is itself rejected
  (`CompletionFilter.RejectedFirstHidesMember`).
* Braces inside strings and comments count when a class body is looked for (`CompletionText.ExtractClassBody`).
* A rename carries no field over: what the change does not give falls back to the file already at the new path, else to
  the default (`FileFold.FoldFollows`).
* The reset time of a token never matters: an exhausted token comes back only through a call that restores it
  (`TokenPoolModel.ClockIsIgnored`, `TokenPoolModel.OutStaysOut`).

## Model

| member | source | states |
|---|---|---|
| GraphModel.CacheKeyInjective | src/cache/graphCache.ts:91-94 | two pairs of org and repository share a key only if they are the same pair, for org ids without NUL |
| GraphModel.CacheKeyCollision | src/cache/graphCache.ts:91-94 | exactly which different pairs share a key, for all ids |
| GraphModel.EdgeKeyCollision | src/cache/graphCache.ts:547-557 | exactly which edges share a key, for all paths: those of one type whose two paths collide |
| GraphModel.DedupeUnique | src/cache/graphCache.ts:547-557 | the stored edge list has no duplicate, keeps the order and adds nothing; deduplicating twice changes nothing |
| GraphModel.DedupeComplete | src/cache/graphCache.ts:547-557 | deduplication forgets no edge exactly when no two different edges share a key |
| GraphModel.DedupeDependencies | src/cache/graphCache.ts:547-557 | the filter with a "seen" set keeps the first edge of each key |
| GraphModel.SanitizeTwice | src/cache/graphCache.ts:472-484 | sanitizing is idempotent and a clone of a sanitized graph is that graph, so what is stored is what is read back |
| GraphModel.SanitizeKeeps | src/cache/graphCache.ts:472-484 | sanitizing keeps everything but the cut lists: each is the first items up to its bound, commits with their sha, author, date, at most 500 characters of message and each file once, titles of at most 300 characters |
| GraphIndexes.IndexAnswersScan | src/cache/graphCache.ts:445-470 | looking a file up in an index answers what scanning the edge list answers, in its order; files without edges have no key |
| GraphIndexes.ScanMembers | src/cache/graphCache.ts:353-361 | the scan is the stored edges with that end, no more and no fewer, in stored order |
| GraphIndexes.FileIndexHolds | src/cache/graphCache.ts:445-470 | the file index holds exactly the paths of the tree, each with a file of that path |
| GraphIndexes.NearerVisited | src/cache/graphCache.ts:559-575 | at any moment of the search every file nearer than the head of the queue has been visited |
| GraphIndexes.TransitiveDependentsExact | src/cache/graphCache.ts:559-575 | the transitive index lists exactly the files reached by one or more reverse edges, each once, in nondecreasing shortest distance; so a file itself only on a cycle |
| GraphIndexes.TransitiveDependentsAreChains | src/cache/graphCache.ts:559-575 | over non-empty paths: the listed files are those linked by a chain of stored edges |
| GraphIndexes.ChainsNeedPaths | src/cache/graphCache.ts:559-575 | the index finds all chains of every file exactly when no edge starts at an empty path |
| GraphIndexes.EmptyPathHidesDependents | src/cache/graphCache.ts:559-575 | an input where an empty path hides a real dependent behind it |
| GraphIndexes.BuildTransitiveDependents | src/cache/graphCache.ts:559-575 | the queue loops terminate and compute that search for every file with dependents |
| GraphIndexes.BuildEntryIndexes | src/cache/graphCache.ts:445-470 | the index-building loops compute the four indexes of the graph |
| NewestFirst.MergedFinds | src/cache/graphCache.ts:541-545 | under every id the merge holds the last value written, from the batch before the stored list |
| NewestFirst.MergeNewestKeeps | src/cache/graphCache.ts:241-256 | unique ids, newest first, and exactly the newest items of the merge up to the bound |
| NewestFirst.MergeNewestExact | src/cache/graphCache.ts:241-256 | with distinct dates the stored list is exactly the items with fewer than the bound newer ones in the merge |
| NewestFirst.BatchesCompose | src/cache/graphCache.ts:241-256 | two batches in turn give the list of their concatenation, if the second brings no known id; dates may tie |
| NewestFirst.BatchesComposeExactly | src/cache/graphCache.ts:241-256 | with distinct dates, for any ids, they do exactly when nothing the first batch cut off and the second does not write again is among the newest of the merge |
| NewestFirst.BatchTwice | src/cache/graphCache.ts:241-256 | repeating a batch changes nothing, whatever it rewrites |
| FileFold.FoldRefines | src/cache/graphCache.ts:206-239 | the ordered-map fold of changes, renames and removals included, is the fold over a plain map from paths to files |
| FileFold.UpdatedTreeIsFold | src/cache/graphCache.ts:206-239 | the new tree is sorted by path, has each path once, and holds the changes folded over the old one |
| FileFold.FoldFollows | src/cache/graphCache.ts:212-227 | a file stands at a path exactly when the last change there left it, or it was there and none took it away; each of its fields is that of the last change giving it since the path was last absent, else the old one, else the default |
| FileFold.FileBatchesCompose | src/cache/graphCache.ts:206-239 | two batches in turn give the paths, sizes, authors and shas of one concatenated batch |
| FileFold.WithinMembers | src/cache/graphCache.ts:206-239 | exactly the edges with both ends in the tree survive, in order |
| FileFold.FoldChanges | src/cache/graphCache.ts:206-239 | the loop over the changes computes the fold |
| FileOwnership.CountsExact | src/cache/graphCache.ts:486-507 | one tally an author, the true counts, and their sum is the number of mentions of the file |
| FileOwnership.OwnerOfCommits | src/cache/graphCache.ts:486-507 | over commits that name a file at most once: the counts are the authors' numbers of commits naming it and add up to all of them; the owners are the authors with the most, in order; the share lies between one in the number of authors and 1 |
| FileOwnership.OwnersMostFrequent | src/cache/graphCache.ts:486-507 | the primary owner has the maximal count, at most three others follow in nonincreasing count, nobody omitted counts more; an unnamed file keeps its last author |
| FileOwnership.TallyCommits | src/cache/graphCache.ts:486-507 | the nested counting loops compute the tallies of every file |
| FileOwnership.RecomputeOwnership | src/cache/graphCache.ts:486-507 | the owners list is one entry a file, in tree order, from those tallies |
| FileSearch.GreedyComplete | src/cache/graphCache.ts:577-602 | the greedy scan finds a subsequence match whenever there is one |
| FileSearch.ScorePositive | src/cache/graphCache.ts:577-602 | a file scores above zero exactly when the pattern embeds in its lowercased path |
| FileSearch.ScoreSays | src/cache/graphCache.ts:577-602 | 100 for the pattern itself, 80 for a path that ends with it, 50 for one that contains it elsewhere, the points of the leftmost embedding for a scattered match, 0 for none |
| FileSearch.ExactMatchFirst | src/cache/graphCache.ts:577-602 | an exact match outranks all others exactly for patterns of up to 25 characters |
| FileSearch.SearchReturnsBest | src/cache/graphCache.ts:392-410 | at most `limit` matching files, by score then path; no omitted match outranks a returned one, and none is omitted below the limit |
| FileSearch.ScoreFile | src/cache/graphCache.ts:577-602 | the scoring loop computes the score |
| FileSearch.SearchFiles | src/cache/graphCache.ts:392-410 | the search computes that ranking |
| CacheMemory.EvictLruKeepsRecent | src/cache/graphCache.ts:528-534 | eviction leaves as many entries as fit, and no evicted entry was accessed after a survivor |
| CacheMemory.StoredKeeps | src/cache/graphCache.ts:183-187 | after setGraph there are at most `maxRepos` entries, none expired, all coherent; each is the written one or an old one under another key |
| CacheMemory.StoredEvictsOldest | src/cache/graphCache.ts:519-534 | a live entry under another key is lost only from a full cache, to entries accessed no earlier than it |
| CacheMemory.StoredIsolates | src/cache/graphCache.ts:183-187 | every other org and repository keeps its entry unchanged or loses it |
| CacheMemory.StoredSurvives | src/cache/graphCache.ts:519-534 | the written entry is in the cache afterwards exactly when the time to live is not negative and at least one repository may be kept |
| CacheMemory.TouchedKeeps | src/cache/graphCache.ts:424-443 | reading keeps the cache bounded and coherent and changes no graph |
| CacheMemory.TouchedRefreshes | src/cache/graphCache.ts:424-443 | a read of a live entry sets its access time and nothing else, one of an expired entry drops it, and every other entry stays as it is |
| CacheMemory.ReadSurvives | src/cache/graphCache.ts:519-534 | with room for two, an entry read after all others were accessed outlives the next store of another key |
| CacheMemory.LastReadSurvives | src/cache/graphCache.ts:424-443 | so in every run with an advancing clock: the entry the last call read outlives the next write, unless it expires |
| CacheMemory.StoredLives | src/cache/graphCache.ts:445-470 | a written entry carries the sanitized graph, was accessed now, and is found exactly until its time to live is over |
| CacheMemory.SweptExactly | src/cache/graphCache.ts:519-526 | sweeping leaves exactly the entries whose time is not up |
| CacheMemory.RemovedExactly | src/cache/graphCache.ts:194-196 | deleting removes one entry and no other |
| CacheMemory.CoherentAnswersScan | src/cache/graphCache.ts:353-361 | in every coherent entry getDependents and getImports answer the scan of a duplicate-free edge list |
| CacheMemory.CoherentFindsFiles | src/cache/graphCache.ts:445-470 | in every coherent entry the file index answers for exactly the paths of the stored tree |
| CacheMemory.CoherentAnswersSearch | src/cache/graphCache.ts:363-370 | in every coherent entry the transitive answer is the search over its stored edges, also for files without dependents |
| CacheMutators.MutatedFound | src/cache/graphCache.ts:141-181 | after a mutator the cache holds the sanitized result of its change to the graph it started from |
| CacheMutators.UpsertStored | src/cache/graphCache.ts:141-181 | an upsert keeps all files, edges, owners, commits, records and branches of an existing graph and restamps it; a new repository starts empty on its default branch |
| CacheMutators.UpdateFilesStored | src/cache/graphCache.ts:206-239 | the stored tree is the fold of the changes, sorted and unique; exactly the edges inside it are kept; owners match the tree one to one |
| CacheMutators.UpdateFilesFields | src/cache/graphCache.ts:206-239 | in the stored tree, whether a file stands at a path and each of its fields follow the last change that says so, else the old file, else the default |
| CacheMutators.UpdateFilesKeepsRest | src/cache/graphCache.ts:206-239 | updateFiles leaves commits, records and branches alone and stamps one more index version, now |
| CacheMutators.UpdateFilesOwners | src/cache/graphCache.ts:206-239 | after updateFiles every file's per-author counts sum to the number of stored commits naming it, and its owners and share are those of the counts |
| CacheMutators.FilesTwice | src/cache/graphCache.ts:206-239 | two batches leave the shapes and owners of one, and the same edges exactly when no edge that ends inside the final tree had an end outside the tree in between |
| CacheMutators.ReaddedFileLosesEdge | src/cache/graphCache.ts:206-239 | an input, a file removed and added again, for which they do not |
| CacheMutators.UpdateFilesTwice | src/cache/graphCache.ts:206-239 | two updateFiles calls store the shapes and owners that one call with both batches stores, and the same edges under exactly that condition |
| CacheMutators.AddCommitsStored | src/cache/graphCache.ts:241-256 | the stored commits are the bounded merge, the owners count them, files and edges stay |
| CacheMutators.AddCommitsNewest | src/cache/graphCache.ts:241-256 | the stored commits have distinct shas, run newest first, and are as many of the newest of the merge as the bound allows; under each sha stands the last commit given, else the stored one |
| CacheMutators.AddCommitsKeepsRest | src/cache/graphCache.ts:241-256 | addCommits leaves records and branches alone and stamps one more index version, now |
| CacheMutators.StoredCountsAreCommits | src/cache/graphCache.ts:655-662 | in every sanitized graph the mentions of a file are as many as the commits naming it |
| CacheMutators.AddCommitsOwners | src/cache/graphCache.ts:241-256 | after addCommits every file's per-author counts sum to the number of stored commits naming it, and its owners and share are those of the counts |
| CacheMutators.AddCommitsAgain | src/cache/graphCache.ts:241-256 | calling addCommits again with the same batch changes no stored commit |
| CacheMutators.AddCommitsTwice | src/cache/graphCache.ts:241-256 | two addCommits calls store what one call with both batches stores, if the second brings no known sha |
| CacheMutators.AddCommitsTwiceExactly | src/cache/graphCache.ts:241-256 | with distinct dates and any shas, they do exactly when no commit the first call cut off and the second does not bring again is among the newest of the merge; so always when the first call cuts nothing |
| CacheMutators.RewrittenShaBreaksBatches | src/cache/graphCache.ts:241-256 | an input with a rewritten sha for which they do not |
| CacheMutators.UpsertRecordStored | src/cache/graphCache.ts:275-313 | after an upsert of an audit record its bounded newest-first merge is what is stored, and no other list changes |
| CacheMutators.SlackDecisionStored | src/cache/graphCache.ts:315-332 | after a decision for a live repository its merge is what is stored |
| CacheMutators.DependenciesStored | src/cache/graphCache.ts:258-273 | after setDependencies on a live repository the given edges are stored, each once, and nothing else changes but the stamp |
| GraphCacheModel.GraphCache.SetGraph | src/cache/graphCache.ts:183-187 | the class invariant holds and memory is the old one after one store, or unchanged with an error for a missing org |
| GraphCacheModel.GraphCache.UpsertRepository | src/cache/graphCache.ts:141-181 | creates or rewrites the repository's graph, and returns it |
| GraphCacheModel.GraphCache.UpdateFiles | src/cache/graphCache.ts:206-239 | memory afterwards is the mutation by the file changes |
| GraphCacheModel.GraphCache.AddCommits | src/cache/graphCache.ts:241-256 | memory afterwards is the mutation by the commits |
| GraphCacheModel.GraphCache.SetDependencies | src/cache/graphCache.ts:258-273 | replaces the edges of a resident graph; no result for an absent one |
| GraphCacheModel.GraphCache.UpsertRecord | src/cache/graphCache.ts:275-313 | merges one pull request, issue or review into its bounded list |
| GraphCacheModel.GraphCache.AddSlackDecision | src/cache/graphCache.ts:315-332 | merges one decision into a resident graph; no result for an absent one |
| GraphCacheModel.GraphCache.DeleteGraph | src/cache/graphCache.ts:194-196 | removes that entry only and says whether there was one |
| GraphCacheModel.GraphCache.Size | src/cache/graphCache.ts:201-204 | counts the entries left after dropping the expired ones |
| GraphCacheModel.GraphCache.GetEntry | src/cache/graphCache.ts:424-443 | the live entry, with its access time refreshed, or nothing after dropping an expired one |
| GraphCacheModel.GraphCache.GetDependents | src/cache/graphCache.ts:353-356 | the stored edges into the file, in stored order |
| GraphCacheModel.GraphCache.GetImports | src/cache/graphCache.ts:358-361 | the stored edges out of the file, in stored order |
| GraphCacheModel.GraphCache.GetTransitiveDependents | src/cache/graphCache.ts:363-370 | the transitive dependents over the stored edges |
| GraphCacheModel.GraphCache.GetOwnership | src/cache/graphCache.ts:343-351 | the owner entry of the file, if any |
| GraphCacheModel.GraphCache.SearchFiles | src/cache/graphCache.ts:392-410 | the ranked search over the stored tree |
| GraphCacheModel.GraphCache.EvictExpired | src/cache/graphCache.ts:519-526 | removing while iterating drops exactly the expired entries |
| GraphCacheModel.GraphCache.EvictLeastRecent | src/cache/graphCache.ts:528-534 | the loop computes the eviction down to `maxRepos` |
| WriteBack.NextKeeps | src/cache/graphCachePostgres.ts:30-129 | every step (write, delete, load, flush, persist, statement) keeps memory and table in step |
| WriteBack.RunKeeps | src/cache/graphCachePostgres.ts:30-129 | in every reachable state each resident graph equals its durable row, or is pending, or is queued in a running flush |
| WriteBack.RunSettles | src/cache/graphCachePostgres.ts:90-100 | with nothing pending, queued or issued, memory and table agree on every resident key |
| WriteBack.PendingHasTimer | src/cache/graphCachePostgres.ts:90-110 | in every run a pending write has its flush timer armed |
| WriteBack.PersistNextWrites | src/cache/graphCachePostgres.ts:112-129 | a persist step writes the resident graph, and nothing when the entry has gone or expired |
| WriteBack.LateLoadCoherent | src/cache/graphCachePostgres.ts:43-55 | a load split into read and store stays coherent exactly when the row is still current or a write of the key waits |
| WriteBack.LoadSparesResident | src/cache/graphCachePostgres.ts:43-55 | loading a repository never replaces a live resident graph |
| WriteBack.HydrateReplacesPending | src/cache/graphCachePostgres.ts:30-41 | loading an organisation replaces it, even while its write waits |
| WriteBack.EvictedWriteIsLost | src/cache/graphCachePostgres.ts:90-129 | in a cache for one repository, two writes and a whole flush leave the first repository's row as it was |
| WriteBackEffects.WriteWrites | src/cache/graphCachePostgres.ts:57-64 | after setGraph the sanitized graph is resident, its write waits with the timer armed, and every other waiting write still does |
| WriteBackEffects.LoadLoads | src/cache/graphCachePostgres.ts:43-55 | after a load a key answers the live resident graph, else the row, else nothing |
| WriteBackEffects.HydrateLoads | src/cache/graphCachePostgres.ts:30-41 | after a restart, loading an organisation that fits makes every row of it resident |
| WriteBackEffects.EraseErases | src/cache/graphCachePostgres.ts:78-88 | a deleted repository is not resident, not pending, and has no row once its statement takes effect |
| WriteBackEffects.DeletedStaysDeleted | src/cache/graphCachePostgres.ts:78-129 | in every run it stays so, through loads and flushes, until it is written again |
| WriteBackEffects.FlushTakesOver | src/cache/graphCachePostgres.ts:90-100 | a flush takes over everything that waits and stops the timer |
| WriteBackEffects.FlushMakesDurable | src/cache/graphCachePostgres.ts:90-129 | a flush that runs to its end leaves every live resident graph resident and makes it the row of its key |
| PersistingGraphCacheModel.PersistingGraphCache.SetGraph | src/cache/graphCachePostgres.ts:57-64 | is the write step: stored in memory, pending, timer armed |
| PersistingGraphCacheModel.PersistingGraphCache.UpsertRepository | src/cache/graphCachePostgres.ts:66-76 | is a write step of the mutated graph |
| PersistingGraphCacheModel.PersistingGraphCache.DeleteGraph | src/cache/graphCachePostgres.ts:78-88 | is the delete step: gone from memory and pending, a delete issued |
| PersistingGraphCacheModel.PersistingGraphCache.BeginFlush | src/cache/graphCachePostgres.ts:90-100 | takes the whole pending set into one flush and clears it |
| PersistingGraphCacheModel.PersistingGraphCache.PersistNext | src/cache/graphCachePostgres.ts:112-129 | is the persist step of the flush's next key |
| PersistingGraphCacheModel.PersistingGraphCache.EnsureLoaded | src/cache/graphCachePostgres.ts:43-55 | is the load step; afterwards the key answers the live resident graph, else the row |
| InlineSchedule.EveryRun | src/autocomplete/coopAutocompleteProvider.ts:454-541 | in every run the unresolved promises are exactly the pending schedule, which is the latest request and live; a request resolved with items was neither cancelled nor aborted; the in-flight map is exactly the unsettled executions of the current scope |
| InlineSchedule.ItemsOnlyForLatest | src/autocomplete/coopAutocompleteProvider.ts:467-541 | a request resolves with items only when an execution settles while it is the latest, pending, uncancelled request |
| InlineSchedule.ReplyIsFinal | src/autocomplete/coopAutocompleteProvider.ts:467-541 | no step changes a promise that has resolved |
| InlineSchedule.SettleRemovesItself | src/autocomplete/coopAutocompleteProvider.ts:467-541 | a settling execution removes itself from the in-flight map and no other |
| InlineSchedule.JoinedExecutionsWereAborted | src/autocomplete/coopAutocompleteProvider.ts:467-541 | in every run, an execution with joined requests belongs to an aborted request |
| InlineSchedule.SettleAnswers | src/autocomplete/coopAutocompleteProvider.ts:504-531 | a settling execution gives its reply to exactly the unresolved request it serves; a rejecting one leaves even that request unresolved |
| InlineSchedule.NobodyForgotten | src/autocomplete/coopAutocompleteProvider.ts:454-541 | in every run without a rejected execution the unresolved request has its timer armed or an execution running for it |
| InlineEffects.CancelAnswersNull | src/autocomplete/coopAutocompleteProvider.ts:480-487 | cancelling an unresolved request answers it with null at once, leaves nothing pending, and answers no other request |
| InlineEffects.CancelledGetsNull | src/autocomplete/coopAutocompleteProvider.ts:467-541 | in every run a request cancelled while unresolved is answered with null, for good |
| InlineEffects.ItemsMeanNotCancelled | src/autocomplete/coopAutocompleteProvider.ts:467-541 | in every run a request that resolved with items had no cancel event before it resolved |
| InlineEffects.SupersededGetsNull | src/autocomplete/coopAutocompleteProvider.ts:454-465 | in every run a request pending when another is scheduled, the repo scope changes or the provider is disposed is answered with null, for good |
| InlineEffects.ScheduleSupersedes | src/autocomplete/coopAutocompleteProvider.ts:467-541 | a new request is the pending one, with its timer armed or served at once by the running execution of its context or a new one |
| InlineEffects.TimerServes | src/autocomplete/coopAutocompleteProvider.ts:499-540 | the timer serves the request it was set for while that is pending, and does nothing else |
| InlineEffects.ScopeForgets | src/autocomplete/coopAutocompleteProvider.ts:309-319 | a change of scope answers the pending request with null and forgets every running execution |
| InlineEffects.SettleSettles | src/autocomplete/coopAutocompleteProvider.ts:513-532 | a settling execution is settled and no other changes |
| InlineSchedule.CoopAutocompleteProvider.SupersedePendingSchedule | src/autocomplete/coopAutocompleteProvider.ts:454-465 | clears the timer, aborts the pending request and resolves it with null |
| InlineSchedule.CoopAutocompleteProvider.ScheduleRequest | src/autocomplete/coopAutocompleteProvider.ts:467-541 | is the schedule step: supersede, then a new pending request, run at once or armed |
| InlineSchedule.CoopAutocompleteProvider.RunRequest | src/autocomplete/coopAutocompleteProvider.ts:467-541 | joins the running execution of the hash, starts one, or resolves a stale request with null |
| InlineSchedule.CoopAutocompleteProvider.TimerFires | src/autocomplete/coopAutocompleteProvider.ts:535-540 | is the timer step: the armed request runs |
| InlineSchedule.CoopAutocompleteProvider.ExecutionSettles | src/autocomplete/coopAutocompleteProvider.ts:467-541 | is the settle step: items for a request that is still current, null otherwise, and the clean-up of the map |
| InlineSchedule.CoopAutocompleteProvider.TokenCancelled | src/autocomplete/coopAutocompleteProvider.ts:467-541 | is the cancel step |
| InlineSchedule.CoopAutocompleteProvider.RepoScopeChanges | src/autocomplete/coopAutocompleteProvider.ts:309-319 | is the scope step: supersede and forget every running execution |
| CompletionRouterModel.RunKeeps | src/autocomplete/completionRouter.ts:103-160 | in every run the map holds exactly the live fetches, and every shared call was compatible with what it joined |
| CompletionRouterModel.OneLiveFetch | src/autocomplete/completionRouter.ts:103-160 | a document has at most one unsettled, non-aborted fetch, and it is the one in the map |
| CompletionRouterModel.CompatibleMeans | src/autocomplete/completionRouter.ts:113-118 | a fetch may be shared exactly for the same context hash, or for a properly longer prefix in the same surroundings |
| CompletionRouterModel.CallServed | src/autocomplete/completionRouter.ts:103-160 | a call shares a live fetch only if the hash is equal or its prefix strictly extends the other's in the same context; otherwise it starts its own, and no live compatible one existed |
| CompletionRouterModel.AbortedOnlyByRival | src/autocomplete/completionRouter.ts:103-160 | a fetch is aborted exactly by an incompatible call for its own document |
| CompletionRouterModel.SettleRemovesItself | src/autocomplete/completionRouter.ts:103-160 | a finishing fetch never removes a newer one |
| CompletionRouterModel.RaceSteps | src/autocomplete/completionRouter.ts:534-564 | the race is won when the request answers first and lost when it fails, times out or a signal fires before that |
| CompletionRouterModel.AnsweredStaysWon | src/autocomplete/completionRouter.ts:187-257 | in every run a request that has answered is ranked whatever its callers do later |
| CompletionRouterModel.RankedIsReceived | src/autocomplete/completionRouter.ts:103-160 | a fetch that ranks its completions gives exactly them to its own call and to every call of the same context, and to a longer prefix those it knows |
| CompletionRouterModel.ThrownIsReceived | src/autocomplete/completionRouter.ts:258-276 | a fetch that throws gives no completions, and its message unless its own controller fired |
| CompletionRouterModel.AbandonedFetchAnswersNothing | src/autocomplete/completionRouter.ts:167-277 | in every run, once the call that started a fetch gives up while the request is unanswered, every call it serves, also one that joins later, gets no completions, and an error unless a rival aborted the fetch |
| CompletionRouterModel.AbandonedFetchIsShared | src/autocomplete/completionRouter.ts:103-160 | a compatible call still joins such a fetch, and can then receive only the empty reply with an error |
| CompletionRouterModel.CompletionRouter.FetchCompletions | src/autocomplete/completionRouter.ts:69-161 | the branches of the call compute the call step |
| CompletionRouterModel.CompletionRouter.CallerAborts | src/autocomplete/completionRouter.ts:534-564 | is the abort step: it ends the race of request, timeout and signals if that is still on |
| CompletionRouterModel.CompletionRouter.FetchSettles | src/autocomplete/completionRouter.ts:153-277 | the end of the fetch and the clean-up compute the settle step and the reply |
| SseReader.SplitConcat | src/api/CoopBackendClient.ts:1826-1866 | splitting more text re-splits only the unterminated rest |
| SseReader.SplitExact | src/api/CoopBackendClient.ts:1826-1866 | the lines and the unterminated rest make up the text, and no newline is inside them |
| SseReader.OtherLinesIgnored | src/api/CoopBackendClient.ts:2131-2145 | only a line that starts, after white space, with "data:" and carries something more is decoded |
| SseReader.ReadingIgnoresCuts | src/api/CoopBackendClient.ts:1826-1866 | however the stream is cut, the reader handles exactly the events on the terminated lines of the whole text |
| SseReader.WrittenEventsAreHandled | src/api/chatApi.ts:448-450 | payloads sent by the writer, cut in any way, are handled in order and all of them (one JSON value per `data:` line, a subset of section 9.2 of the WHATWG HTML standard) |
| SseReader.ReadStream | src/api/CoopBackendClient.ts:1826-1866 | the read loop stops at the end, an error event or the first chunk after an abort, and has handled exactly the lines read so far |
| SseReader.ChatContent | src/api/CoopBackendClient.ts:1826-1866 | the returned content is the concatenation of all onChunk calls |
| SseReader.ChatShown | src/api/CoopBackendClient.ts:1826-1866 | the chunks are the deltas before the first error event, and reading fails exactly when there is one |
| SseReader.ChatFields | src/api/CoopBackendClient.ts:1826-1866 | the usage is the last done event before an error, the thoughts are all thinking texts, and the first error's message is thrown |
| SseReader.InlineContent | src/api/CoopBackendClient.ts:1933-1985 | the returned completion is the concatenation of its chunks |
| SseReader.InlineShown | src/api/CoopBackendClient.ts:1933-1985 | the chunks are the deltas before the first error event |
| SseReader.InlineFields | src/api/CoopBackendClient.ts:1933-1985 | model, provider, usage and quota id are those of the last done event giving them, the first two else those asked for |
| OutputGate.EveryRun | src/chat/chatResponseTiming.ts:30-92 | in every interleaving delivered chunks followed by the queue are the accepted pushes, so delivery is a prefix in order; all of them once the gate is open |
| OutputGate.OpenFromStart | src/chat/chatResponseTiming.ts:9-60 | a gate is open from the start exactly when the minimum delay has passed, and else waits for the rest of it |
| OutputGate.DeliveredExactly | src/chat/chatResponseTiming.ts:30-92 | in every interleaving an open gate has delivered exactly the uncancelled pushes, in order, and a closed one none |
| OutputGate.OpenExactly | src/chat/chatResponseTiming.ts:45-60 | the gate is open exactly when it was from the start or its timer or a waiter resumed without a cancel |
| OutputGate.NothingStranded | src/chat/chatResponseTiming.ts:30-92 | if cancelling is for good, a resolved gate last read as uncancelled is open and has delivered every accepted chunk |
| OutputGate.CompleteExactly | src/chat/chatResponseTiming.ts:74-80 | complete delivers the final text exactly when not cancelled, not blank, and neither a non-blank chunk nor a final text came before |
| OutputGate.LiftedCancelStrandsQueue | src/chat/chatResponseTiming.ts:74-80 | a run in which a lifted cancel leaves accepted text undelivered |
| OutputGate.ChatOutputGate.Push | src/chat/chatResponseTiming.ts:63-73 | is the push step: delivered when open, queued when not, dropped when cancelled |
| OutputGate.ChatOutputGate.TimerFires | src/chat/chatResponseTiming.ts:45-60 | is the timer step: open and flush, unless cancelled |
| OutputGate.ChatOutputGate.WaitResumes | src/chat/chatResponseTiming.ts:81-90 | is the waiter step: opens and flushes a gate the timer left closed, unless cancelled |
| OutputGate.ChatOutputGate.CompleteResumes | src/chat/chatResponseTiming.ts:74-80 | is the completion step |
| BlastReview.StreamSourceGroundedBlast | src/chat/blastRadiusSourceReview.ts:44-127 | the review returns exactly when no abort was seen, no callback threw, every call was answered and the last answer passed its checks; it answers with that answer, once, and only then; it calls the model once, and again exactly when the first answer failed its checks; every answered call's known usage is counted exactly once, in the total, given exactly when all usages are of one source, or in a partial report, unless a report throws |
| BlastReview.ReportPartialUsage | src/chat/blastRadiusSourceReview.ts:78-83 | reports the known usages in order; all of them exactly when no callback throws early |
| BlastReview.RunPhase | src/chat/blastRadiusSourceReview.ts:45-65 | one phase makes at most one call, emits no answer, and records the call as completed exactly when the model answered it, whatever fails afterwards |
| BlastReview.TotalCounts | src/chat/blastRadiusSourceReview.ts:85-127 | a returned total is the sum over all calls, of one model and provider |
| Brackets.RunAcceptsDyck | src/autocomplete/contextAnalyzer.ts:292-321 | the stack machine accepts exactly the words of the three-bracket Dyck grammar |
| Brackets.HasUnbalancedBrackets | src/autocomplete/contextAnalyzer.ts:292-321 | the check answers false exactly for texts whose brackets outside quotes form such a word |
| Brackets.VisibleIsOutside | src/autocomplete/contextAnalyzer.ts:292-321 | the brackets it looks at are those outside quoted regions |
| Brackets.QuotedRegions | src/autocomplete/contextAnalyzer.ts:292-321 | a quoted region runs from a quote character outside any other to the next one of its kind without a backslash before it |
| Brackets.TwoBrackets | src/autocomplete/contextAnalyzer.ts:292-321 | the pairs that match are the three kinds |
| Brackets.ScanLexicalState | src/autocomplete/contextAnalyzer.ts:233-286 | the scanning loop computes the lexical state at the offset |
| Brackets.CodeRuns | src/autocomplete/contextAnalyzer.ts:233-286 | code lasts to the first comment opener or quote, which decides what follows |
| Brackets.BlockCommentRuns | src/autocomplete/contextAnalyzer.ts:233-286 | a block comment lasts to its first closer |
| Brackets.LineCommentRuns | src/autocomplete/contextAnalyzer.ts:233-286 | a line comment lasts to the next newline |
| Brackets.StringRuns | src/autocomplete/contextAnalyzer.ts:233-286 | a string lasts to the next quote of its kind, a backslash taking the next character with it |
| Brackets.ScannersAgree | src/autocomplete/contextAnalyzer.ts:233-321 | for every text, both scanners agree at every offset on which quote is open exactly when no quote stands inside a comment and no escaped backslash directly before a closing quote |
| Brackets.EscapedBackslashDisagrees | src/autocomplete/contextAnalyzer.ts:233-321 | a text with an escaped backslash on which they differ |
| CompletionFilter.CandidatesExact | src/autocomplete/completionFilter.ts:108-141 | the scored candidates are exactly the acceptable suggestions that are first under their dedupe key |
| CompletionFilter.FirstIsCandidate | src/autocomplete/completionFilter.ts:108-141 | an acceptable suggestion is a candidate when no earlier one has its text or, after a dot, its member |
| CompletionFilter.KeyHasCandidate | src/autocomplete/completionFilter.ts:126-135 | a key has a candidate exactly when its first suggestion is acceptable |
| CompletionFilter.RejectedFirstHidesMember | src/autocomplete/completionFilter.ts:126-135 | a rejected first suggestion hides every later one of its key |
| CompletionFilter.NothingHiddenAwayFromDot | src/autocomplete/completionFilter.ts:126-135 | away from a dot every acceptable suggestion is a candidate |
| CompletionFilter.DistinctExact | src/autocomplete/completionFilter.ts:910-922 | collapsing the sorted list keeps of each near-duplicate class the best-scored member, the earliest on ties |
| CompletionFilter.AnswerExact | src/autocomplete/completionFilter.ts:143-152 | at most 3 (or 1) items in rank order, one a class, all eligible; an eligible one is left out only when the list is full of better-ranked ones; empty only if no representative survives the after-dot filter |
| CompletionFilter.AnswerMeans | src/autocomplete/completionFilter.ts:143-152 | scores do not rise; no two texts, near-duplicate keys or members repeat; nothing the after-dot rule rejects is shown; no known member stands beside an unknown one |
| CompletionFilter.SurvivesMeans | src/autocomplete/completionFilter.ts:143-152 | a representative is the best-scored of its near-duplicate class, the earliest on ties, that the after-dot rule accepts |
| CompletionFilter.HeadIsBest | src/autocomplete/completionFilter.ts:695-705 | the head is the best representative among known members, or among all when none is known |
| CompletionFilter.AnswerIsFromBatch | src/autocomplete/completionFilter.ts:108-152 | no two items share a dedupe key; each is the non-empty cleaned form of some raw suggestion, with its own score |
| CompletionFilter.FilterAndRank | src/autocomplete/completionFilter.ts:108-152 | the loop, the sort and the filters compute that answer |
| CompletionFilter.CollapseNearDuplicates | src/autocomplete/completionFilter.ts:910-922 | the loop keeps the first item of each class |
| CompletionText.StripOverlapWithPrefix | src/autocomplete/completionFilter.ts:1095-1106 | the result is the shortest text that, typed after the prefix, makes the line end with the whole completion |
| CompletionText.ExtractClassBody | src/autocomplete/completionFilter.ts:456-484 | the body between the first class header's brace and the brace that balances it, and nothing exactly when there is none |
| CompletionText.ClassBodyUnique | src/autocomplete/completionFilter.ts:456-484 | a text has at most one such body |
| TokenPoolModel.ChosenUsable | src/api/tokenPool.ts:68-84 | a selection finds a token exactly when some token is usable, and never a disabled or exhausted one |
| TokenPoolModel.LeastUsedIsFullest | src/api/tokenPool.ts:116-118 | least-used chooses a token with the maximal remaining/limit ratio, the first of them |
| TokenEffects.RatiosCompare | src/api/tokenPool.ts:116-118 | for positive limits ratios compare as their cross products; a zero limit beats all |
| TokenEffects.LeastUsedLeavesMost | src/api/tokenPool.ts:116-118 | under least-used with positive limits no usable token has a larger part of its limit left than the chosen one |
| TokenPoolModel.AssignedComesFirst | src/api/tokenPool.ts:110-115 | per-repo chooses the first usable token assigned to the repository, and uses no turn |
| TokenEffects.TurnsTaken | src/api/tokenPool.ts:109-123 | a turn is taken exactly under round-robin, or under per-repo when no usable token is assigned to the repository |
| TokenPoolModel.RoundRobinIsFair | src/api/tokenPool.ts:119-123 | while the eligible list stays the same, whatever other calls come between, n selections return each of its k records n/k times or once more, so two counts differ by at most one |
| TokenPoolModel.PicksById | src/api/tokenPool.ts:119-123 | where the eligible ids are distinct, the selections of a token are those of its one record |
| TokenPoolModel.SelectionsAreSteady | src/api/tokenPool.ts:68-84 | selections alone, for any provider, keep the eligible list |
| TokenPoolModel.ProvidersAreIndependent | src/api/tokenPool.ts:38-94 | a call for one provider changes no other provider's pool or cursor |
| TokenPoolModel.ClockIsIgnored | src/api/tokenPool.ts:125-133 | eligibility is the same at every time: the reset time decides nothing |
| TokenPoolModel.OutStaysOut | src/api/tokenPool.ts:125-133 | an exhausted or disabled token is returned by no selection of a run without a call that restores it |
| TokenEffects.DisableDisables | src/api/tokenPool.ts:61-66 | disabling makes the first record of the id unusable, enabling makes it usable unless exhausted; no other record changes |
| TokenEffects.DisabledIsOut | src/api/tokenPool.ts:61-66 | where ids are distinct, a disabled token is out of every selection |
| TokenEffects.RateLimitUpdates | src/api/tokenPool.ts:86-94 | new limits make the first record of the id usable exactly when something remains and it is not disabled |
| TokenEffects.AssignAssigns | src/api/tokenPool.ts:96-102 | the repository is added once to the first record of the id, and none is forgotten |
| TokenEffects.RemoveRemoves | src/api/tokenPool.ts:51-59 | exactly the records of other ids stay, in order |
| TokenEffects.AddAdds | src/api/tokenPool.ts:45-49 | the record is last in its provider's pool, or alone in a new round-robin one |
| TokenEffects.UnknownIdIgnored | src/api/tokenPool.ts:61-66 | a call for an id no record has changes nothing |
| TokenEffects.SelectStamps | src/api/tokenPool.ts:68-84 | a selection stamps the record it returns, changes no other, and uses up a turn only when it takes one |
| TokenPoolModel.TokenPool.Select | src/api/tokenPool.ts:68-84 | changes only the chosen record's last use and, on a turn, the cursor; returns the chosen token and its record without the token |
| TokenPoolModel.TokenPool.SelectToken | src/api/tokenPool.ts:109-123 | the strategies in their order: assignment, ratio, turn |
| TokenPoolModel.TokenPool.SetPool | src/api/tokenPool.ts:38-43 | replaces one pool and keeps every cursor |
| TokenPoolModel.TokenPool.AddToken | src/api/tokenPool.ts:45-49 | appends to the pool, or to a new round-robin pool |
| TokenPoolModel.TokenPool.RemoveToken | src/api/tokenPool.ts:51-59 | removes every record of the id and says whether there was one |
| TokenPoolModel.TokenPool.DisableToken | src/api/tokenPool.ts:61-66 | sets the flag of the first record of the id and of no other |
| TokenPoolModel.TokenPool.UpdateRateLimit | src/api/tokenPool.ts:86-94 | replaces the limit, the rest and the reset time of the first record of the id |
| TokenPoolModel.TokenPool.AssignRepo | src/api/tokenPool.ts:96-102 | adds the repository once to the first record of the id |

## Left out

* Limits and bounds are natural numbers: what JavaScript's `slice` does with a negative limit is not modelled.
* `localeCompare` is a given order on paths; case folding, trimming in the graph cache and UTF-16 pairs in the search are given functions on character sequences.
* Rounding of shares by `toFixed`, date formatting and the freshness and staleness fields of query results.
- BlastReview.StreamSourceGroundedBlast: the branch for questions without grounded sources (lines 40-42), which makes one unchecked call, is not modelled.
- WriteBack.RunKeeps: assumes atomic loads, statements in issue order and no failing query, since the code promises nothing without them; `WriteBack.LateLoadCoherent` covers a load that is not atomic.
- CacheMutators.AddCommitsTwiceExactly: dates are distinct; with equal dates the order of ties depends on what was stored when, and only `CacheMutators.AddCommitsTwice` applies.
* `getRecentChanges`, the owner index, which nothing reads, and the arbitrary partial graphs `upsertRepository` could be given.
* Graphs, commits and tokens are values, copied by the source on the way in and out; aliasing of nested arrays is not modelled.
* Output, chunk and phase callbacks that call back into the gate or the cache, and gate callbacks that throw.
* JSON encoding and UTF-8 decoding: a decoder from line payloads to events is a parameter, and chunks are already text.
* What the executions, requests and model calls return, and the settings, accepted items, alternatives and triggers of the completion provider.
* Calls of the provider that return a running execution's promise before anything is scheduled (lines 342-345 and 356-359).
* The completion router's cache lookup, rate limits and prompt building: they decide only whether a call returns early.
* The text rules of the ranking pipeline (cleaning, scores, keys, member checks) are parameters; the regular expressions behind them are not modelled.
* `clampCompletionToMaxLength`, `ensureInsertSpacing`, the hint functions of the context analyzer, `list` and the constructor's copies of the token pool, `clearCache`.
* Token limits are integers and ratios exact quotients; NaN limits and rounding of quotients are not modelled.
* Disk storage, rate limit tracking, the completion cache, the degradation cache, back-off and settings restore would add only easier members.
