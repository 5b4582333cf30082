# Verified model of the deterministic engine

This project models the parts of the `llm-kernel` library that compute something intricate
beneath its SQL, HTTP and ONNX plumbing, and proves what those parts promise:

- the lazy embedding provider: the load protocol around one mutex and one condition variable,
  the LRU query cache, and the batch path that serves from it (`LazyLoader`, `QueryCache`,
  `BatchEmbedding`);
- the knowledge graph: weighted neighbours and bounded search, each beside the SQL that computes
  the same thing (`GraphEdges`, `Neighbors`, `Traversal`);
- scoped recall over comma-joined columns and LIKE (`Like`, `Csv`, `Vocabulary`, `Recall`);
- calendar arithmetic and timestamps (`Calendar`, `Timestamps`, `Lexicographic`);
- span redaction (`Redaction`) and URL rewriting (`UrlRedaction`, `UrlOccurrences`,
  `UrlPromise`);
- the node and edge tables: upserts, deletions, insert-or-ignore in batches (`Ingestion`,
  `GraphStore`);
- top-k pruning and rank fusion (`SparseTopK`, `RankFusion`);
- the bounded connection pool (`ConnectionPool`).

`Wrappers`, `Sequences` and `Sorting` hold what the others share.  `Sorting.Sort` stands for the
stable sort, `Sorting.SortUnstable` for the unstable one, which promises order and contents only.

Concurrent code is a step system: one step per critical section (or per semaphore operation),
with every interleaving of any number of threads or calls.  SQL is its relational meaning: a
recursive query is the least set of rows closed under its terms, GROUP BY is a sum per key.
Scores and weights are reals.  Hash maps are iterated in an order chosen arbitrarily.  Methods
follow the loops of the code and are proved against specification functions, about which the
lemmas speak.

## Where the code is narrower than its documentation

- `ensure_model` returning `Ok` does not guarantee a provider at the moment of use: a second
  caller can evict it in between.  This happens exactly when an idle timeout is configured
  (`LazyLoader.UseNeverFailsIffNoIdleTimeout`).
- A load that a timeout has disowned can finish late and fail, and then marks a model failed
  that a second load had made ready, its provider still in place
  (`LazyLoader.LateFailureLeavesReady`); this and idle eviction are the only ways out of `Ready`
  (`LazyLoader.ReadyIsLeftIff`).
- The default `edges_for_node_dir` returns the edges of the databases' overrides, but in their
  order, by descending weight, for every request exactly when edges that share an endpoint stand
  in the table by descending weight (`GraphEdges.ChainsAreQueryResultsIff`); the neighbour
  weights do not depend on it (`Neighbors.WalkIgnoresOrder`).
- The default `neighbors_weighted` and the SQL form agree for every table exactly when the seeds
  are distinct and at most 100 (`Neighbors.FormsAgreeIffDistinctAndFew`).
- `related_nodes` on SQLite says it excludes the start; it includes it when the start has a
  self-loop (`Traversal.SqliteMeetsSearch`).  Both queries read depth 0 as depth 1
  (`Traversal.QueriesAgreeIff`).
- `passes_scope_filters` says it stays in lock-step with the WHERE clause; SQLite's LIKE folds
  ASCII case and finds items across commas, and the predicate does neither.  Over the rows
  written from given words they are one filter exactly when those words tell `stale` and what is
  asked for apart (`Recall.ScopeFiltersAgreeIff`), and exactly when they tell it apart on fresh
  rows the window makes no difference to a recall with a hint (`Recall.CandidatesIgnoreWindowIff`).
- Comparing timestamps as strings is comparing times exactly up to the year 10000, and the
  parser undoes the printer exactly that far (`Timestamps.StringOrderIsTimeOrderIff`,
  `Timestamps.ParsePrintIff`).
- The pool is bounded by its permits only while no future is dropped in flight; each one dropped
  so can add one connection (`ConnectionPool.PoolBound`, `ConnectionPool.BoundIsReached`).
- `apply_redactions` says it panics on a span out of bounds.  It slices at starts only: a span that
  ends past the text masks the rest (`Redaction.EndPastText`), one that ends before it starts
  repeats the bytes between (`Redaction.InvertedSpanRepeats`), and one that starts past the text
  panics exactly when the points from the end of the text up to it are not all touched by spans
  (`Redaction.FitsIff`).
- `redact_credentials` says it strips the userinfo from any URL in a text.  It reads an authority
  up to the next `/`, `?` or `#`, through whitespace and through the scheme of a second URL.  So it
  passes over a URL that none of these parts from the one before, as in `s://a s://u:p@b`
  (`UrlOccurrences.TwoUrlsExample`), and it takes the text between a URL and a later `@` for a
  userinfo: `s://h a@b` comes out as `s://<redacted>@b` (`UrlPromise.ProseExample`).  Every `://` is
  read as the start of a URL exactly when one of the three stands between each and the next
  (`UrlOccurrences.AllSeenIffParted`).  The output is what is promised, with whitespace ending a
  URL, exactly when no whitespace stands between a `://` that is read so and the `@` picked behind
  it, and every URL passed over has no userinfo or `<redacted>` for one
  (`UrlPromise.RunningTextIff`).

## Model

| member | source | states |
|---|---|---|
| `QueryCache.EmbeddingCache.constructor` | src/embedding/lazy.rs:188-193 | a new cache is empty, valid and has the given capacity |
| `QueryCache.EmbeddingCache.Get` | src/embedding/lazy.rs:196-203 | answers from the current entries and moves a hit to the most recent end, leaving the others in order |
| `QueryCache.EmbeddingCache.Insert` | src/embedding/lazy.rs:206-219 | stores nothing at capacity 0, refreshes an existing key at the recent end, otherwise evicts the oldest entry of a full cache and appends |
| `QueryCache.RunKeepsValid` | src/embedding/lazy.rs:182-220 | keys stay distinct and the size within capacity over every sequence of gets and inserts |
| `QueryCache.IncludedStep` | src/embedding/lazy.rs:195-219 | one operation on a small and a larger cache keeps them equal, or the small one full and a subsequence of the larger with equal values |
| `QueryCache.InclusionOverRuns` | src/embedding/lazy.rs:195-219 | inclusion: after any trace the small cache is a subsequence of the larger one |
| `QueryCache.SmallHitIsLargeHit` | src/embedding/lazy.rs:195-219 | every hit of the small cache is a hit of the larger one with the same vector |
| `QueryCache.RunOrderedByRecency` | src/embedding/lazy.rs:176-220 | entries are always in the order of their last use and hold the last value inserted for their key |
| `QueryCache.InsertIsHeld` | src/embedding/lazy.rs:206-219 | a cache that is not disabled holds what was just inserted, at its recent end |
| `QueryCache.OtherKeysStay` | src/embedding/lazy.rs:195-219 | an operation changes what is held for another key only by evicting the least recent entry, when a new key is inserted into a full cache |
| `QueryCache.HeldIff` | src/embedding/lazy.rs:176-220 | the replacement policy exactly: an entry just used is held with its value if and only if fewer other keys than the capacity have been inserted or found since |
| `QueryCache.InsertedIsHeldIff` | src/embedding/lazy.rs:176-220 | so it is for every insertion in every run from an empty cache |
| `BatchEmbedding.LookUpAll` | src/embedding/lazy.rs:476-491 | the lookup loop splits the batch into answered slots and misses by the cache as it was before the loop, although every hit reorders it |
| `BatchEmbedding.MissIndicesAreTheMisses` | src/embedding/lazy.rs:478-489 | the collected positions are exactly those of texts without an entry, in ascending order |
| `BatchEmbedding.GetsKeepAnswers` | src/embedding/lazy.rs:481-491 | no sequence of lookups changes what any lookup answers |
| `BatchEmbedding.CallProvider` | src/embedding/lazy.rs:505-527 | a missing provider, a provider error and a wrong number of vectors are errors; otherwise one vector per miss |
| `BatchEmbedding.Merge` | src/embedding/lazy.rs:529-537 | fills exactly the missing slots and leaves the cache as inserting the misses in order does |
| `BatchEmbedding.EmbedBatch` | src/embedding/lazy.rs:471-552 | when the batch succeeds, its answers and the cache afterwards, on every path: empty batch, all hits, load failure, provider failure, merge; other threads may use the cache between the two locked phases |
| `BatchEmbedding.CachedBatchIsPlainBatch` | src/embedding/lazy.rs:471-552 | a batch that succeeds is the embedding of every text in input order, for any cache content, capacity, duplicates, evictions, use of the cache by others, and for a model that is down or fails on some inputs; succeed or not, the cached values stay true |
| `BatchEmbedding.EveryBatchIsPlain` | src/embedding/lazy.rs:471-552 | entry by entry, after any history of the cache: if what was inserted and what the provider answers are the values of their texts, each text of a batch that succeeds has its value in its place |
| `BatchEmbedding.FaithfulModelServesAll` | src/embedding/lazy.rs:471-552 | with a loaded model that never fails every batch succeeds |
| `BatchEmbedding.RunKeepsConsistent` | src/embedding/lazy.rs:195-219 | a cache whose values are the provider's stays so over any gets and such inserts |
| `BatchEmbedding.Embed` | src/embedding/lazy.rs:437-469 | when a single text succeeds, its answer and the cache afterwards, with any use of the cache by others between the lookup and the insertion |
| `BatchEmbedding.CachedEmbedIsPlainEmbed` | src/embedding/lazy.rs:437-469 | a single text that succeeds gets its embedding, cached or fresh, and the cached values stay true |
| `LazyLoader.LazyProvider.constructor` | src/embedding/lazy.rs:268-292 | starts `Cached` or `NotLoaded` by what is on disk, with no provider |
| `LazyLoader.LazyProvider.EnterSection` | src/embedding/lazy.rs:338-360 | the first critical section, state by state: a ready model unused for more whole seconds than the idle timeout, if there is one, is evicted and loaded again; otherwise ready succeeds, an unloaded one is loaded, loading waits, failed and disabled are errors |
| `LazyLoader.LazyProvider.FinishSection` | src/embedding/lazy.rs:403-420 | the section after a load, successful, failed or panicked |
| `LazyLoader.LazyProvider.WakeSection` | src/embedding/lazy.rs:356-385 | the section after a wait: wait on, time out and mark the load failed, or report the state found |
| `LazyLoader.LazyProvider.Reset` | src/embedding/lazy.rs:320-329 | leaves every state but `Failed` alone and turns that into the initial one |
| `LazyLoader.RunKeepsInv` | src/embedding/lazy.rs:338-423 | the protocol invariant holds after every interleaving of callers, finishes, wakeups, timeouts, resets, uses and evictions |
| `LazyLoader.NoLostWakeup` | src/embedding/lazy.rs:356-420 | a parked caller implies state `Loading` and a load in flight that will notify it |
| `LazyLoader.LoadAccounting` | src/embedding/lazy.rs:320-423 | exact conservation laws for loads in flight and load starts; hence at most one load when nothing timed out, and at most 1 + resets + evictions starts |
| `LazyLoader.OkMeansReady` | src/embedding/lazy.rs:352-411 | `Ok` is returned only from a state that is `Ready` with its provider present |
| `LazyLoader.UnexpectedNeedsResetOrEviction` | src/embedding/lazy.rs:380-384 | the "unexpected state" error occurs exactly when the model is unloaded again, which takes a reset or an eviction |
| `LazyLoader.UseFailsOnlyAfterEviction` | src/embedding/lazy.rs:453-460 | between `Ok` and use the provider is lost only to an eviction |
| `LazyLoader.UseNeverFailsIffNoIdleTimeout` | src/embedding/lazy.rs:341-350 | the provider is there at every use, in every run, if and only if no idle timeout is set |
| `LazyLoader.EntryEvictsIff` | src/embedding/lazy.rs:341-352 | in every run an entry that finds the model ready loads again if and only if an idle timeout is set and for one second more than that nobody has used or loaded the model; otherwise it succeeds and changes nothing |
| `LazyLoader.WaitTimesOutIff` | src/embedding/lazy.rs:356-379 | a waiting caller gives up on a load that goes on if and only if more than the load timeout has passed since it entered |
| `LazyLoader.Drain` | src/embedding/lazy.rs:356-420 | from every state of the invariant some run of finishing loads and acting callers, one step per thread inside, releases everyone |
| `LazyLoader.EveryDrainEnds` | src/embedding/lazy.rs:356-420 | every run of such steps, in any order, is bounded by the work left at its start |
| `LazyLoader.EveryWaiterIsReleased` | src/embedding/lazy.rs:338-423 | as long as loads finish, also by panicking, nobody waits for ever: from every reachable state each such run is bounded, and when no step is left to take nobody is inside |
| `LazyLoader.ReadyIsLeftIff` | src/embedding/lazy.rs:341-420 | a step leaves `Ready` if and only if it evicts an idle model or ends, with a failure, a load that a timeout had disowned |
| `LazyLoader.ReadyIsEvictedOnly` | src/embedding/lazy.rs:341-350 | if nothing has timed out, `Ready` is left by idle eviction only |
| `LazyLoader.LateFailureLeavesReady` | src/embedding/lazy.rs:403-420 | a timeout, a reset and a second load lead to a ready model that the first load marks failed, its provider in place |
| `GraphEdges.ChainMeetsQuery` | src/graph/backend.rs:82-98 | reading both directions and filtering twice returns the edges that the one query returns, each as often |
| `GraphEdges.ChainIsQueryResultIff` | src/graph/store.rs:212-227 | for one request it returns them in the order of the query, by descending weight, if and only if the edges that the request selects stand in the table so |
| `GraphEdges.ChainsAreQueryResultsIff` | src/graph/backend.rs:78-98 | it does for every node, direction and relation if and only if edges that share an endpoint stand in the table by descending weight |
| `GraphEdges.EdgesForNodeDirIff` | src/graph/backend.rs:82-98 | the edges returned are those of the table at the node in the given direction and, if one is given, of that relation |
| `GraphEdges.TotalAdd` | src/graph/backend.rs:119 | accumulating into the map raises its total by the weight added |
| `Neighbors.WalkSeed` | src/graph/backend.rs:112-121 | one seed's edge loop adds each edge weight to the other endpoint unless that is a seed |
| `Neighbors.WalkIgnoresOrder` | src/graph/backend.rs:112-121 | the order in which a seed's edges come makes no difference to the weights |
| `Neighbors.NeighborsWeighted` | src/graph/backend.rs:102-126 | the nested walk, heaviest first, in any iteration order of the map |
| `Neighbors.NeighborsGrouped` | src/graph/traversal.rs:39-106 | the grouped halves accumulated over at most 100 seeds, heaviest first |
| `Neighbors.WalkMeaning` | src/graph/backend.rs:108-122 | the walk gives each non-seed the weight of its linking edges, counted once per occurrence of the seed |
| `Neighbors.NeighborIff` | src/graph/backend.rs:102-122 | the neighbours are the nodes outside the seeds at the other end of an edge of the given relation that leaves, enters or meets a seed |
| `Neighbors.GroupedMeaning` | src/graph/pg.rs:855-907 | the grouped form gives each non-seed the weight of its linking edges, counted once |
| `Neighbors.FormsAgree` | src/graph/traversal.rs:39-106 | for distinct seeds, at most 100, both forms are the same map in every direction and relation filter |
| `Neighbors.FormsAgreeIffDistinctAndFew` | src/graph/traversal.rs:48-52 | they agree on every table if and only if the seeds are distinct and at most 100 |
| `Neighbors.FormsDisagree` | src/graph/traversal.rs:36-52 | otherwise one edge tells them apart |
| `Neighbors.NeighborsConserveWeight` | src/graph/traversal.rs:95-101 | the neighbour weights add up to the weight of the edges that cross the boundary of the seed set |
| `Traversal.ExpandNode` | src/graph/backend.rs:146-150 | one node's neighbours are marked, and queued when new |
| `Traversal.ExpandFrontier` | src/graph/backend.rs:144-151 | the next layer is exactly what is one hop from the frontier and was not visited |
| `Traversal.RelatedNodesFiltered` | src/graph/backend.rs:130-159 | without repeats, exactly the nodes other than the start that some walk of 1 to `depth` edges reaches, early exit included |
| `Traversal.WithinIsReachable` | src/graph/backend.rs:127-129 | the layered notion the loop computes is the existence of a walk |
| `Traversal.HopIff` | src/graph/backend.rs:127-151 | one hop is an edge of the given relation, if one is given, in the given direction |
| `Traversal.SqliteRows` | src/graph/traversal.rs:113-126 | the least set of rows of the SQLite query exists and is the walks of each length that avoid the start |
| `Traversal.PgRows` | src/graph/pg.rs:752-766 | the least set of rows of the PostgreSQL query exists and is the walks of each length |
| `Traversal.PgMeetsSearch` | src/graph/pg.rs:752-766 | before LIMIT, the PostgreSQL query returns the nodes of the search with `Both` and no relation |
| `Traversal.SqliteMeetsSearch` | src/graph/traversal.rs:113-126 | before LIMIT, the SQLite query returns those, and the start exactly when it has a self-loop |
| `Traversal.QueriesAgreeIff` | src/graph/traversal.rs:112-135 | queries and search agree off the start if and only if the depth is positive or the start has no neighbour but itself |
| `Like.EscapeLike` | src/graph/types.rs:167-179 | puts a backslash before `%`, `_` and backslash and keeps every other character |
| `Like.EscapedPrefix` | src/graph/types.rs:163-179 | an escaped value at the head of a pattern matches only that text, up to case folding |
| `Like.PercentLiteralPercent` | src/graph/types.rs:163-179 | an escaped value between two `%` matches exactly the texts that contain it |
| `Like.FoldIff` | src/graph/search.rs:95-106 | folding makes the two cases of the 26 ASCII letters alike, and nothing else |
| `Like.UnderscoreMatchesOne` | src/graph/types.rs:163-179 | an unescaped `_` matches exactly one character |
| `Csv.PiecesOfJoin` | src/graph/types.rs:152-154 | splitting at commas undoes joining comma-free items |
| `Csv.TrimCuts` | src/graph/types.rs:156-161 | trimming cuts whitespace off both ends of a piece and nothing else |
| `Csv.SpaceIff` | src/graph/types.rs:158 | which code points count as whitespace |
| `Csv.SplitJoinRoundTrip` | src/graph/types.rs:152-161 | decoding an encoded list gives it back if and only if every item is trimmed, non-empty and comma-free |
| `Csv.LikeIsPiece` | src/graph/search.rs:95-106 | for a comma-free item, the LIKE test holds exactly when some comma-separated piece of the column equals it under LIKE's case rule |
| `Csv.LikeIsMembershipIff` | src/graph/search.rs:95-106 | over all lists of comma-free items the LIKE test is membership if and only if the item sought is non-empty and comma-free |
| `Vocabulary.ReadsExactlyIff` | src/graph/recall.rs:119-141 | over the columns written from a set of clean words the LIKE test is exact membership in the decoded list if and only if the words tell the item apart: it is not empty, no other word equals it up to case, and if it holds commas some piece of it matches no word |
| `Vocabulary.StoredIsFound` | src/graph/recall.rs:119-141 | a stored clean item is always found, so the query errs only by finding too much |
| `Recall.ScopeFiltersAgreeIff` | src/graph/recall.rs:279-310 | over all rows written from clean words, and all options that ask for certain tags and projects, the WHERE clause and the Rust predicate are the same filter if and only if the words tell `stale`, those tags and those projects apart |
| `Recall.ScopeFiltersAgree` | src/graph/recall.rs:279-310 | for such words they agree on each row and request |
| `Recall.ScopeFiltersDifferOnStale` | src/graph/recall.rs:281-283 | a tag that differs from `stale` only in case is hidden by the query alone |
| `Recall.ScopeFiltersDifferOnTag` | src/graph/recall.rs:292-299 | a requested tag that differs from a stored one only in case is found by the query alone |
| `Recall.GatherCandidates` | src/graph/recall.rs:157-188 | window, lexical gate and recovery give each candidate once and no other row |
| `Recall.CandidatesIgnoreWindow` | src/graph/recall.rs:162-188 | with a hint the candidates are the lexical matches in scope, whatever the importance window held, when the words of the table tell the request apart |
| `Recall.CandidatesIgnoreWindowIff` | src/graph/recall.rs:162-188 | that holds for every table written from clean words, every window and all options that ask for certain tags and projects, if and only if the words that LIKE does not read as `stale` tell those tags apart and the project words those projects |
| `Recall.TopCandidates` | src/graph/recall.rs:190-213 | the `limit` best candidates by base score, best first, with none left out that scores higher |
| `Recall.TopScoresAgree` | src/graph/recall.rs:190-213 | two gatherings of the same candidates put the same base scores in the same places |
| `Recall.ImportanceWeighs` | src/graph/recall.rs:190-206 | rows that differ only in importance differ by 0.35 per unit |
| `Recall.RecencyWeighs` | src/graph/recall.rs:190-206 | by recency alone, by 0.20 per unit |
| `Recall.AccessesWeigh` | src/graph/recall.rs:190-206 | by accesses alone, by 0.0075 for each from 0 to 20, and not at all beyond |
| `Recall.HitWeighs` | src/graph/recall.rs:190-206 | by being a lexical hit alone, by 0.20 |
| `Recall.NothingScoresZero` | src/graph/recall.rs:190-206 | a row with none of these scores 0 |
| `Recall.DominantComesFirst` | src/graph/recall.rs:190-213 | a candidate that is no worse in each of these and better in one stands before the other in the truncated list, and is in it if the other is |
| `Recall.BoostsFirstHundred` | src/graph/recall.rs:220-240 | the first hundred get the centrality among them as their boost, the others none |
| `Recall.BoostKeepsLead` | src/graph/recall.rs:238-246 | the boost adds at most 0.10, so a lead of more than that in the base scores is kept |
| `Recall.ApplyBoost` | src/graph/recall.rs:220-246 | the boost pass re-orders the same nodes by their raised scores |
| `Recall.SmartRecallWith` | src/graph/recall.rs:83-247 | the whole recall: an unmatched hint gives nothing; otherwise the boosted order of the top candidates, at most `limit` |
| `Calendar.DaysSinceEpoch` | src/graph/lifecycle.rs:225-242 | the closed form on `u64`, for every year, month and day a caller may pass |
| `Calendar.ClosedFormCountsLeapYears` | src/graph/lifecycle.rs:226-228 | `y/4 - y/100 + y/400` counts exactly the years that `is_leap` accepts |
| `Calendar.TakeYears` | src/graph/lifecycle.rs:156-166 | the year loop ends, in the year that the recursive form names |
| `Calendar.TakeMonths` | src/graph/lifecycle.rs:167-190 | within a year the month loop stops inside the twelve months |
| `Calendar.DaysToYmd` | src/graph/lifecycle.rs:156-191 | both loops together give the date of the day count |
| `Calendar.DateOfIsInverse` | src/graph/lifecycle.rs:156-242 | every day count gives a valid Gregorian date, and the closed form maps it back |
| `Calendar.NumberOfIsInverse` | src/graph/lifecycle.rs:156-242 | every valid date from 1970 on comes back from its day number |
| `Calendar.DaysOrder` | src/graph/lifecycle.rs:156-191 | day counts compare as their dates do |
| `Calendar.NewYearsDay` | src/graph/lifecycle.rs:225-229 | January 1st, 1970 is day 0, and the years have 366 or 365 days by the Gregorian rule |
| `Calendar.FirstOfMonth` | src/graph/lifecycle.rs:231-241 | the days before a month, in closed form |
| `Calendar.DateHasDay` | src/graph/lifecycle.rs:156-191 | the date of a day count has a day of the twelve months as the calendar has them |
| `Calendar.DayIsValid` | src/graph/lifecycle.rs:225-242 | all of these days are valid dates, counted from the first of their month |
| `Calendar.OutOfRange` | src/graph/lifecycle.rs:231-241 | month 0 counts as January, day 0 as the first, and from month 13 on the year is over |
| `Lexicographic.LessByField` | src/graph/lifecycle.rs:93-95 | strings that start with fields of equal width compare field by field |
| `Timestamps.FormatIso` | src/graph/lifecycle.rs:197-207 | the printed timestamp is that of the date and clock of the seconds |
| `Timestamps.PrintOrder` | src/graph/lifecycle.rs:91-105 | printed timestamps with years of equal width compare as strings exactly as their times |
| `Timestamps.PrintReads` | src/graph/lifecycle.rs:197-207 | before the year 10000 the text has twenty characters, with `-`, `T`, `:` and `Z` between and behind the numbers |
| `Timestamps.StringOrderIsTimeOrderIff` | src/graph/lifecycle.rs:91-105 | string order is time order on all times before a limit if and only if the limit is at most the year 10000 |
| `Timestamps.ParseIsoToSecs` | src/graph/lifecycle.rs:210-223 | field slices with their defaults, combined on `u64` |
| `Timestamps.ParsePrint` | src/graph/lifecycle.rs:197-223 | before the year 10000 parsing a printed timestamp returns its seconds |
| `Timestamps.ParsePrintIff` | src/graph/lifecycle.rs:197-223 | over all `u64` seconds, it does so if and only if they lie before the year 10000 |
| `Timestamps.ShortIsZero` | src/graph/lifecycle.rs:210-213 | fewer than nineteen characters give 0 |
| `Timestamps.ReadsNineteen` | src/graph/lifecycle.rs:210-219 | nothing behind the nineteenth character matters |
| `Timestamps.NumberReads` | src/graph/lifecycle.rs:214-219 | a number of digits reads the same with a `+` before it; without a digit, or with another character in it, it is unreadable |
| `Timestamps.NothingReadable` | src/graph/lifecycle.rs:214-223 | the defaults of unreadable fields are the year 0, January, the first and midnight, and the days before the epoch wrap round |
| `Redaction.MergeInPlace` | src/dlp/scan.rs:357-363 | the merge loop extends the last span or pushes a new one, as the fold specifies |
| `Redaction.ApplyRedactions` | src/dlp/scan.rs:353-378 | sort, merge and splice give the text with each maximal touched run replaced by one mask, for empty spans and ends past the text as well; it panics exactly when some merged span starts past the text |
| `Redaction.FitsIff` | src/dlp/scan.rs:345-373 | the code runs through if and only if other spans touch everything from the end of the text to each span that starts past it |
| `Redaction.MergedInBounds` | src/dlp/scan.rs:347-373 | spans within the text, as `scan` reports them, never make it panic, and stay within it when merged |
| `Redaction.EndPastText` | src/dlp/scan.rs:365-377 | a span that ends past the text masks everything from its start |
| `Redaction.InvertedSpanRepeats` | src/dlp/scan.rs:365-377 | a span that ends before it starts puts a mask in and repeats the bytes between |
| `Redaction.RedactMeans` | src/dlp/scan.rs:353-378 | the output equals a cell-by-cell meaning that knows only which bytes and which points between bytes some span touches |
| `Redaction.MaskReads` | src/dlp/scan.rs:373 | what is masked reads `****` |
| `Redaction.RedactDependsOnTouch` | src/dlp/scan.rs:353-378 | spans that touch the same points and bytes of the text give the same output |
| `Redaction.MergedIsSeparated` | src/dlp/scan.rs:354-363 | the merged list is sorted, its spans are separated by uncovered bytes, and it covers the same bytes |
| `Redaction.MergedIsCanonical` | src/dlp/scan.rs:354-363 | two span lists merge to the same list if and only if they touch the same points and bytes |
| `Redaction.RedactDependsOnCover` | src/dlp/scan.rs:353-378 | for spans that are not empty the covered bytes alone decide the output |
| `Redaction.RedactIgnoresOrderAndRepeats` | src/dlp/scan.rs:353-378 | permuting or repeating spans changes nothing |
| `Redaction.RedactIgnoresPremerging` | src/dlp/scan.rs:353-378 | merging first changes nothing |
| `Redaction.RedactedLength` | src/dlp/scan.rs:353-378 | output length is the text less its covered bytes plus four per merged run |
| `Redaction.ReportedSpansSuffice` | src/dlp/scan.rs:324-328 | the sorted and deduplicated spans of the report redact what all findings would |
| `Redaction.ReportedSpansDiffer` | src/dlp/scan.rs:326-328 | the reported spans are those of the findings, with no two neighbours alike |
| `Ingestion.UniqueIff` | src/graph/schema.rs:136-147 | a table is unique when no two rows share an id or a source, target and relation |
| `Ingestion.InsertAllKeepsUnique` | src/graph/store.rs:145-201 | insert-or-ignore keeps both keys unique |
| `Ingestion.InsertAllSplits` | src/graph/pg.rs:802-821 | two batches one after the other are one batch, so chunks make no difference |
| `Ingestion.InsertAllRepresents` | src/graph/store.rs:162-167 | after a batch, from any table, each of its edges is there by its id or by its source, target and relation |
| `Ingestion.RetryAfterPrefix` | src/graph/pg.rs:802-806 | re-running a whole batch after any committed prefix gives the table of one uninterrupted run |
| `Ingestion.RetryAfterAttempts` | src/graph/pg.rs:802-806 | the same after any number of failed attempts |
| `Ingestion.FilterKeepsUnique` | src/graph/store.rs:310-325 | deleting rows keeps both keys unique |
| `GraphStore.Store.UpsertNode` | src/graph/store.rs:25-64 | replaces or inserts one row: `created` is kept, the access fields take the larger value, the rest is overwritten |
| `GraphStore.ReadAfterRun` | src/graph/store.rs:67-74 | after any run a read gives nothing if the node was not written since its last deletion, and otherwise the first `created`, the highest access values and the last content as the columns decode it |
| `GraphStore.Store.AppendEdge` | src/graph/store.rs:145-160 | inserts unless a key clashes |
| `GraphStore.Store.Transaction` | src/graph/pg.rs:807-820 | all rows of a transaction or, after an error at any statement, none |
| `GraphStore.Store.AppendEdges` | src/graph/store.rs:173-201 | SQLite: the whole batch or nothing |
| `GraphStore.Store.AppendEdgesInChunks` | src/graph/pg.rs:796-824 | PostgreSQL: the whole chunks before the first one in which a statement fails are committed, all of the batch if there is none |
| `GraphStore.Store.DeleteEdge` | src/graph/store.rs:310-316 | removes the edge with the id and says whether there was one |
| `GraphStore.Store.DeleteNode` | src/graph/store.rs:99-113 | removes the node and every edge touching it, or nothing if the transaction fails |
| `GraphStore.RunKeepsUnique` | src/graph/schema.rs:136-147 | both edge keys stay unique over every run of upserts, appends, partial batches and deletions |
| `GraphStore.RowIsCombinedWrites` | src/graph/store.rs:13-49 | after any run a node's row has the first `created`, the highest access values and the last content written since its last deletion |
| `GraphStore.HighestCountIsMaximum` | src/graph/store.rs:22-24 | the stored access count is the largest ever written |
| `GraphStore.LatestAccessIsMaximum` | src/graph/store.rs:22-24 | the stored access time is one written, and no later one was |
| `GraphStore.FirstWriteReadsBackIff` | src/graph/types.rs:207-227 | a node written once reads back unchanged if and only if its list items survive the comma-joined columns |
| `GraphStore.DeletedNodeStaysDetached` | src/graph/store.rs:94-113 | after a deletion no edge touches the node until one is appended again |
| `SparseTopK.New` | src/embedding/sparse.rs:34-47 | fails on a length mismatch; otherwise drops exactly the zeros and sorts the rest by index, repeated indices included |
| `SparseTopK.PruneTopK` | src/embedding/sparse.rs:76-97 | for every `k` and every vector, repeated indices included: min(k, nnz) weights in index order, none of which should come after one left out |
| `SparseTopK.PrunedIsMost` | src/embedding/sparse.rs:69-75 | no selection of at most `k` weights has more total magnitude |
| `SparseTopK.PrunedTwice` | src/embedding/sparse.rs:76-97 | pruning to `k` and then to `j` is pruning to the smaller |
| `SparseTopK.LeadingAreDetermined` | src/embedding/sparse.rs:84-91 | unless opposite values share an index, the weights kept do not depend on how the unstable sort treats ties |
| `SparseTopK.PrunedIsUnique` | src/embedding/sparse.rs:84-97 | with distinct indices neither does their order: there is one pruned vector |
| `SparseTopK.KeptOutweighs` | src/embedding/sparse.rs:84-91 | a kept weight has no smaller square than one left out, and at equal squares no larger index |
| `RankFusion.Scores` | src/embedding/vector_index.rs:114-138 | the score map holds exactly the ids that appear, each with the sum of its contributions |
| `RankFusion.Fuse` | src/embedding/vector_index.rs:112-145 | each input id exactly once with its score, best first, ties by id, for any map iteration order; a weight count that does not match is an error |
| `RankFusion.FusionIsUnique` | src/embedding/vector_index.rs:139-144 | that description determines the output list |
| `RankFusion.FusionIgnoresOrder` | src/embedding/vector_index.rs:132-136 | permuting lists together with their weights changes nothing |
| `RankFusion.RrfIgnoresOrder` | src/embedding/vector_index.rs:116-123 | reciprocal rank fusion does not depend on the order of the lists |
| `RankFusion.RrfUsesRanksOnly` | src/embedding/vector_index.rs:46-48 | reciprocal rank fusion depends only on the id sequences |
| `RankFusion.RankScore` | src/embedding/vector_index.rs:70-73 | in a list without repeats an id scores the reciprocal of `k` plus its 1-based rank |
| `RankFusion.WeightScore` | src/embedding/vector_index.rs:132-136 | in a list without repeats an id scores the weight of the list times its score there |
| `RankFusion.FusionDescends` | src/embedding/vector_index.rs:139-144 | the output goes by descending score, ties by ascending id |
| `RankFusion.RrfKeepsDominance` | src/embedding/vector_index.rs:70-73 | if `a` precedes `b` in every list that holds `b`, it precedes `b` in the output |
| `RankFusion.RrfOfOneList` | src/embedding/vector_index.rs:70-73 | fusing a single list keeps its order |
| `ConnectionPool.PoolInner.TakeConn` | src/graph/async_pool.rs:61-84 | pops the last idle connection, or opens one when there is none, as the protocol step does |
| `ConnectionPool.PoolInner.ReturnConn` | src/graph/async_pool.rs:86-91 | appends the connection, as the protocol step does |
| `ConnectionPool.NextKeepsInv` | src/graph/async_pool.rs:207-227 | permits are accounted for and the bound is kept by every step, including failed opens, panics and cancellation |
| `ConnectionPool.PoolBound` | src/graph/async_pool.rs:207-227 | idle, in-use and being-opened connections never exceed max(1, `max_conns`) plus the futures dropped in flight |
| `ConnectionPool.BoundIsReached` | src/graph/async_pool.rs:212-217 | for every number of futures dropped in flight some run reaches that bound |
| `ConnectionPool.OpenMakesOne` | src/graph/async_pool.rs:61-84 | a failed open leaves no connection, one that succeeds a new one in use |
| `ConnectionPool.PanicLosesConnection` | src/graph/async_pool.rs:217-227 | a connection goes back to the idle list after its closure, but not after a panic |
| `ConnectionPool.PermitsComeBack` | src/graph/async_pool.rs:212-216 | when every call is done all permits are back |
| `ConnectionPool.NoDeadlock` | src/graph/async_pool.rs:207-227 | while a call is unfinished some call can take its next step |
| `ConnectionPool.ConnectionsAreExclusive` | src/graph/async_pool.rs:61-91 | in every run a connection is idle once or used by one call |
| `UrlRedaction.RedactCredentials` | src/embedding/elastic.rs:395-424 | the loop ends with the redaction of the whole text |
| `UrlOccurrences.RedactMeans` | src/embedding/elastic.rs:395-424 | position by position, the output is the text with the mark for what the scan takes for the userinfo behind every `://` it sees, where one is seen unless an earlier seen authority runs past it |
| `UrlOccurrences.FirstIsSeen` | src/embedding/elastic.rs:395-424 | the first `://` of a text is always seen |
| `UrlOccurrences.SeenIff` | src/embedding/elastic.rs:395-424 | a `://` behind another is passed over if and only if that one is seen and no `/`, `?` or `#` stands between them |
| `UrlOccurrences.AllSeenIffParted` | src/embedding/elastic.rs:384-394 | every `://` of a text is read as the start of a URL if and only if one of these stands between each and the next |
| `UrlOccurrences.SeenUserIsReplaced` | src/embedding/elastic.rs:395-424 | what the scan takes for the userinfo behind a seen `://` is gone, with the mark for its `@` |
| `UrlOccurrences.MissedAuthorityIsCopied` | src/embedding/elastic.rs:395-424 | the authority of each URL passed over is copied as it stands |
| `UrlOccurrences.SeenUserLeavesNoTrace` | src/embedding/elastic.rs:386-394 | texts that differ only in what the userinfo of one seen URL says have the same redaction |
| `UrlOccurrences.SwallowedUrlIsCopied` | src/embedding/elastic.rs:395-424 | a family of texts with two URLs that come out unchanged, whatever userinfo the second has |
| `UrlOccurrences.TwoUrlsExample` | src/embedding/elastic.rs:395-424 | `s://a s://u:p@b` is one of them |
| `UrlPromise.SameTextIff` | src/embedding/elastic.rs:395-424 | two ways to replace userinfos give the same text if and only if they do so within each authority |
| `UrlPromise.PromiseKeptIff` | src/embedding/elastic.rs:384-394 | whatever characters end a URL, the output is the text with the userinfo of every URL replaced if and only if behind each `://` the scan finds the userinfo of the URL, or one of the two finds none and the other finds `<redacted>` |
| `UrlPromise.RunningTextIff` | src/embedding/elastic.rs:384-394 | with whitespace ending a URL it is if and only if no whitespace stands between a seen `://` and the `@` that the scan picks, and each URL passed over has no userinfo or `<redacted>` for one |
| `UrlPromise.RedactsUrlsIff` | src/embedding/elastic.rs:384-394 | the same for any characters that end a URL, other than `@` and those of `<redacted>` |
| `UrlPromise.RedactsAllIff` | src/embedding/elastic.rs:384-394 | if only `/`, `?` and `#` end an authority, the output is what is promised if and only if the userinfo of every URL passed over reads `<redacted>` |
| `UrlPromise.PartedTextIsRedacted` | src/embedding/elastic.rs:384-394 | if only these end an authority and one stands between each `://` and the next, the userinfo of every URL is replaced and nothing else changed |
| `UrlPromise.PartedRunningTextIff` | src/embedding/elastic.rs:384-394 | for such a text, with whitespace ending a URL, that is so if and only if no whitespace stands between a `://` and the last `@` of its authority |
| `UrlPromise.ProseIsReplaced` | src/embedding/elastic.rs:395-424 | a family of texts that lose everything between their `://` and an `@`, be it part of the URL or not |
| `UrlPromise.ProseExample` | src/embedding/elastic.rs:395-424 | `s://h a@b` is one of them, although its URL has no userinfo |
| `UrlRedaction.ParseRender` | src/embedding/elastic.rs:395-424 | a text falls in one way only into the cuts the scan makes: prefixes, userinfos, hosts and a tail, where a host runs to the next `/`, `?` or `#` |
| `UrlRedaction.RenderParse` | src/embedding/elastic.rs:395-424 | these parts make up the text |
| `UrlRedaction.RedactIsLocal` | src/embedding/elastic.rs:395-424 | relative to those cuts redaction replaces the userinfos, keeps all other parts and leaves the cuts where they are |
| `UrlRedaction.RedactTwice` | src/embedding/elastic.rs:395-424 | applying it twice equals applying it once |
| `UrlRedaction.RedactRevealsNothing` | src/embedding/elastic.rs:386-394 | two texts have the same redaction exactly when their cuts are the same but for what the userinfos say |

## Left out

- Floating point: scores, weights and magnitudes are reals, so rounding, NaN and the effect of summation order are not modelled.
- Mutex poisoning: every lock succeeds.
- The contents of messages: `text_preview`, provider and database error texts are not modelled.
- The clock: a nondecreasing number of nanoseconds; a wait may expire at any moment not before its timeout.
- Timestamps outside ASCII: slicing a string inside a multi-byte character, which panics, is not modelled.
- Calendar.DaysSinceEpoch: models release arithmetic, where additions wrap; a debug build panics on overflow, and years beyond the range of `i64` are not reinterpreted.
- Redaction.ApplyRedactions: does not model the check that a span begins and ends between UTF-8 characters, on which the code panics as well; for spans that end before they start only a single one is followed to its output.
- The detection rules of `scan` and the RRN checksum: regex matches are taken as given spans.
- Recall.SmartRecallWith: the text search, the recency score and the centrality of the boost are parameters; the bound `limit * 4` on text hits and candidates is covered by letting the window and the hits be any set; touching the returned nodes is left out.
- Recall.ScopeFiltersAgreeIff: speaks of columns written as joined lists of clean items; columns with stray blanks or empty pieces, which only a foreign writer stores, are not covered.
- Traversal.PgMeetsSearch: the LIMIT of 500 rows is not applied, and a depth that does not fit the SQL integer type is not modelled.
- Traversal.SqliteMeetsSearch: the same.
- GraphStore.Store.DeleteNode: the rows are two tables of values; full-text triggers and secondary indexes are left out.
- SparseTopK.PruneTopK: sorts the weights themselves where the code sorts their positions.
- RankFusion.Fuse: the panic on mismatched weights is an error value.
- ConnectionPool.PoolBound: closing the semaphore and dropping the pool are left out.
- `touch_nodes`, `decay_importance`, `tag_stale_nodes`, `compute_stats`: single SQL statements whose meaning is their text.
- Full-text search and BM25, PageRank and CSR, HTTP, Qdrant, Elasticsearch and pgvector calls, TLS, file I/O, ONNX and MLX inference, tokenizers and downloads: foreign code.
- Config loading, the CLIs, discovery clients, secrets, MCP: plumbing without an algorithm to prove.
