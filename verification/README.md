# Contract benchmarking and model lifecycle, verified

A Dafny model of the algorithms and the state behind a contract-risk platform:
the benchmark corpus (near-duplicate removal, ingestion, clause generation,
anonymization, freshness, classification), the life cycle of its models
(dataset split, evaluation, registry, A/B tests), and the converter that turns
its Markdown documents into Word files.

Every operation is a method, a class method where the program has an object,
proved against a function or relation over values; the main results are lemmas
about those. One module stands for one source file, or for
the three keyword classifiers; `Greedy` and `Jaccard` hold
the mathematics of deduplication, and `Tally`, `Rounding`, `Fractions` and
`Prelude` hold the counting, rounding and arithmetic that several files share.
`dafny verify dfyconfig.toml` checks the whole project.

The functions that the methods are proved against are fixed in turn by laws that
do not use them: counts of words, sets of positions, literal thresholds, labels
and statuses, closed formulas with their rounding error, and what happens to
every entry that an operation does not name.

What the proofs are about:

- **Deduplication.** The double loop computes the lexicographically first
  maximal independent set of the similarity graph. For a symmetric similarity
  the incremental test is the same decision. Groups are a partition with
  witnesses, and their members are at least 2t - 1 similar, by the triangle
  inequality for Jaccard distance.
- **Ingestion.** The pipeline receives only a number from the deduplicator and
  stores that many clauses from the front. Storing the kept clauses would keep
  the corpus duplicate-free over any run; the code as written does so exactly
  when, in every call, no removed clause comes before a kept one.
- **Splits.** Python slices with negative bounds tile a category exactly when
  the sizes fit, the validation size covers the category, or the test size
  exceeds it. Ratios strictly between 0 and 1 with sum at most 1 always fit.
- **Text.** Sequential replacement of placeholders is simultaneous
  substitution. Splicing from right to left is one rewrite from left to right.
- **State over time.** A tracker that reads a moving clock many times in one
  call; a registry whose invariants and lineages hold over all runs under
  exact conditions.
- **Numbers.** Averages, percentiles, shares and verdicts, over exact reals
  with Python's rounding to two and four places.

Where the code and its documentation or evident purpose part, the model follows
the code:

- `ingest` stores a prefix and not the clauses kept
  (`CorpusIngestion.IngestStoresTheCopy`, `CorpusIngestion.RunPrefixIsDuplicateFreeIff`).
- The registry takes a production model with the empty id for none
  (`ModelRegistry.EmptyIdKeepsProductionStatus`), and registering the production
  id again leaves the production id at a staging version (`ModelRegistry.RegisteringAgainUnmarks`).
- The split for evaluation uses ratios 1 and 0, for which the training part
  repeats test examples (`Dataset.EverythingToTest`).
- The freshness score of at most 1.5 needs no bound on the duration of the call;
  the bound of two counts per segment does.
- A/B verdicts count a rise as an improvement whatever the metric measures, when
  the control mean is not zero and the rise does not round to nothing
  (`AbTesting.ImprovesIff`). Measured by latency and error alone, two of
  the three default metrics, where less is better, a treatment that doubles both
  is recommended for promotion (`AbTesting.WorseIsPromoted`).
- With no metrics at all, an A/B test recommends promotion both ways
  (`AbTesting.NoMetricsPromotesBoth`).
- The classification rule for equal thresholds is unreachable
  (`Classification.AtMarketMeansApart`).
- The converter does not skip the inside of fenced code: the loop for it stops
  on the fence it starts from (`DocConverter.SkipCode`).
- The contract classifier is documented with fifteen types. It has sixteen; the
  last one, `OTHER`, lists nothing to look for and is chosen only by default
  (`KeywordClassifiers.SilentKindIsDefault`).

## Model

| member | source | states |
|---|---|---|
| `Greedy.KeptIsTheOnlyGreedySet` | api/benchmarking/deduplicator.py:136-153 | a set of positions that holds i exactly when it holds no earlier position related to i is the kept set; there is only one |
| `Greedy.KeptIsLexicographicallyFirst` | api/benchmarking/deduplicator.py:136-153 | an independent set that agrees with the kept one below i contains i only if i is kept: the kept set is the lexicographically first maximal independent set |
| `Greedy.UniqueIsIndependent` | api/benchmarking/deduplicator.py:136-172 | no two clauses that survive are duplicates of each other, for any relation |
| `Greedy.UniqueIsIdempotent` | api/benchmarking/deduplicator.py:136-172 | running the pass again on the survivors removes nothing |
| `Greedy.UniqueAtKept` | api/benchmarking/deduplicator.py:132-153 | the survivors are the clauses at the kept positions, one for one and in order |
| `Greedy.IncrementalTest` | api/benchmarking/deduplicator.py:256-284 | for a symmetric relation, testing a clause against the survivors so far gives the decision of the batch loop for that position |
| `Greedy.BatchIsIncremental` | api/benchmarking/deduplicator.py:242-284 | folding the incremental test over any input keeps exactly what the batch double loop keeps |
| `Greedy.RemovedHasClaimer` | api/benchmarking/deduplicator.py:136-157 | a position is removed if and only if an earlier kept position is the first one related to it |
| `Greedy.GroupsPartitionRemoved` | api/benchmarking/deduplicator.py:133-172 | every group has a kept representative and at least one more member; the groups without representatives list each removed position exactly once; sizes add up; removed and kept together are all |
| `Greedy.PrefixIsUniqueIffSuffix` | api/benchmarking/corpus_ingestion.py:114-126 | the prefix as long as the kept list is the kept list, and is duplicate-free, if and only if no removed position precedes a kept one |
| `Jaccard.Triangle` | api/benchmarking/deduplicator.py:207-214 | Jaccard distance on finite word sets satisfies the triangle inequality |
| `Jaccard.Overlap` | api/benchmarking/deduplicator.py:207-214 | counting form of that inequality, on intersections and unions of three sets |
| `Jaccard.SimilarityIsRatio` | api/benchmarking/deduplicator.py:208-214 | the similarity times the number of words of both texts is the number of common words |
| `Deduplicator.GreedyPass` | api/benchmarking/deduplicator.py:126-172 | the nested loops with their growing kept, removed, groups and scores return the report of the greedy choice, for any similarity; the word-overlap pass at 182-240 is the same loop |
| `Deduplicator.CollectGroup` | api/benchmarking/deduplicator.py:140-157 | the inner loop yields the group of exactly the positions this representative removes, their best score, and the enlarged removed set |
| `Deduplicator.ScanExisting` | api/benchmarking/deduplicator.py:256-284 | true exactly when some existing clause reaches the threshold, with the score of the first that does |
| `Deduplicator.SemanticDeduplicator.Deduplicate` | api/benchmarking/deduplicator.py:77-101 | for every input, short ones included, the report of the greedy choice; its counts and groups are those of the relation that holds when the cosine reaches the threshold or, without embeddings, when the common words are at least that share of all words |
| `Deduplicator.SemanticDeduplicator.IsDuplicate` | api/benchmarking/deduplicator.py:242-284 | true exactly when for some existing clause the cosine reaches the threshold or, without embeddings, the common words are at least that share of all words; the score is that of the first such clause |
| `Deduplicator.SemanticDeduplicator.LoadModel` | api/benchmarking/deduplicator.py:63-75 | lazy loading: afterwards the model is the installed one or none, however often it is called |
| `Deduplicator.ShortInput` | api/benchmarking/deduplicator.py:89-94 | the early return for at most one clause agrees with the full pass |
| `Deduplicator.TextDuplicateIff` | api/benchmarking/deduplicator.py:207-216 | without embeddings two clauses are duplicates if and only if they have any words and the common ones number at least the threshold times all of them |
| `Deduplicator.ScoresMatchGroups` | api/benchmarking/deduplicator.py:143-158 | one score for each group: the similarity of some member to the representative, and no member is more similar |
| `Deduplicator.GroupIdsAreIds` | api/benchmarking/deduplicator.py:141-158 | reported groups are the groups of positions, read through the clause ids |
| `Deduplicator.GroupCohesion` | api/benchmarking/deduplicator.py:194-223 | any two clauses in one word-overlap group are at least 2t - 1 similar, although only compared to the representative |
| `Deduplicator.BestIsLargest` | api/benchmarking/deduplicator.py:143-157 | a reported score is the similarity of some member and no member is more similar |
| `Deduplicator.TextSimilarityIsSymmetric` | api/benchmarking/deduplicator.py:207-218 | the word-overlap relation is symmetric at every threshold, so the batch and incremental forms agree on it |
| `CorpusIngestion.CorpusIngestionPipeline.ProcessSingleClause` | api/benchmarking/corpus_ingestion.py:146-210 | the outcome of one item, whose meaning is PassesIff |
| `CorpusIngestion.PassesIff` | api/benchmarking/corpus_ingestion.py:160-210 | an item passes if and only if its text is not blank, anonymizing succeeds, the clause is valid, the quality filter admits it and no clause of the corpus is related to it, and then as that clause with its new score; it fails if and only if one of the steps raises |
| `CorpusIngestion.CandidateFields` | api/benchmarking/corpus_ingestion.py:174-187 | every field given counts, and each missing one has its default |
| `CorpusIngestion.PassedBelowIff` | api/benchmarking/corpus_ingestion.py:102-112 | the clauses that reach deduplication are exactly the admitted ones unrelated to the corpus |
| `CorpusIngestion.StoredWasAdmitted` | api/benchmarking/corpus_ingestion.py:79-144 | over any run, every clause stored, as written or as intended, came from a raw item that was not blank, was anonymized and was admitted by the quality filter |
| `CorpusIngestion.CorpusIngestionPipeline.Ingest` | api/benchmarking/corpus_ingestion.py:79-144 | the corpus grows by a prefix of the admitted clauses as long as the kept list; the counters and the metadata are those of the new corpus |
| `CorpusIngestion.CorpusIngestionPipeline.ProcessAll` | api/benchmarking/corpus_ingestion.py:102-112 | the loop with its exception handler collects the admitted clauses in order and counts the failures |
| `CorpusIngestion.CorpusIngestionPipeline.StoreFront` | api/benchmarking/corpus_ingestion.py:119-126 | selecting by id among the first n stores exactly the first n clauses, in order |
| `CorpusIngestion.CorpusIngestionPipeline.UpdateMetadata` | api/benchmarking/corpus_ingestion.py:244-282 | metadata describes the present corpus |
| `CorpusIngestion.CorpusIngestionPipeline.GetClausesByType` | api/benchmarking/corpus_ingestion.py:220-234 | the stored clauses of that type, in insertion order |
| `CorpusIngestion.StoreKeptStep` | api/benchmarking/corpus_ingestion.py:114-126 | storing the kept clauses preserves a duplicate-free corpus |
| `CorpusIngestion.StorePrefixStep` | api/benchmarking/corpus_ingestion.py:114-126 | one call as written leaves the corpus duplicate-free if and only if it was so and removals form a suffix; it stores the same number as the kept list, and the same clauses if and only if removals form a suffix |
| `CorpusIngestion.RunKeptIsDuplicateFree` | api/benchmarking/corpus_ingestion.py:79-144 | over any sequence of calls, storing the kept clauses keeps the whole corpus duplicate-free |
| `CorpusIngestion.RunPrefixIsDuplicateFreeIff` | api/benchmarking/corpus_ingestion.py:79-144 | over any sequence of calls as written, the corpus is duplicate-free if and only if every call removed from the end only; then it equals the intended corpus |
| `CorpusIngestion.PrefixStoresTheCopy` | api/benchmarking/corpus_ingestion.py:119-126 | counterexample: of the admitted clauses x, a copy of x, and z, the kept ones are x and z but the prefix is x and its copy |
| `CorpusIngestion.IngestStoresTheCopy` | api/benchmarking/corpus_ingestion.py:79-144 | the same for a whole call of ingest on a new pipeline: from the raw texts a, a, b, with word overlap at the default threshold, the two copies are stored where a and b were kept, and the corpus is not duplicate-free |
| `CorpusIngestion.LedgersAgree` | api/benchmarking/corpus_ingestion.py:95-126 | received = passed + failed + skipped, passed = stored + duplicates removed, and the corpus grows by stored |
| `CorpusIngestion.PassedIsClean` | api/benchmarking/corpus_ingestion.py:200-210 | admitted clauses have distinct fresh ids and none duplicates the corpus |
| `CorpusIngestion.MetadataAddsUp` | api/benchmarking/corpus_ingestion.py:244-282 | each of the four count dictionaries sums to the number of clauses |
| `CorpusIngestion.TypeCountIsLength` | api/benchmarking/corpus_ingestion.py:220-282 | the count of a clause type is the number of clauses found by that type |
| `CorpusIngestion.MetadataMeans` | api/benchmarking/corpus_ingestion.py:254-282 | each dictionary holds the number of clauses with that value in its own field; documents are the different sources; the average quality is that of the scores, rounded |
| `CorpusIngestion.OfTypeMultiplicity` | api/benchmarking/corpus_ingestion.py:231-234 | the clauses found by type are those of that type, each as often as it is stored |
| `CorpusIngestion.CountAll` | api/benchmarking/corpus_ingestion.py:244-282 | one pass fills the four dictionaries with the multiplicities, and the sum of the scores |
| `Tally.TallyTotal` | api/benchmarking/corpus_ingestion.py:248-267 | a dictionary filled by counting sums to the number of items counted |
| `GenerateCorpus.GenerateClause` | api/benchmarking/generate_corpus.py:140-156 | the loop over the nine placeholders is the chain of text replacements in dictionary order |
| `GenerateCorpus.ReplaceFillsOne` | api/benchmarking/generate_corpus.py:154-155 | text replacement of one placeholder fills exactly the holes of that name: no match straddles pieces |
| `GenerateCorpus.SequentialIsSimultaneous` | api/benchmarking/generate_corpus.py:140-156 | replacing placeholders one after another equals filling all holes at once |
| `GenerateCorpus.OrderIndependent` | api/benchmarking/generate_corpus.py:140-156 | any reordering of the replacements gives the same clause |
| `GenerateCorpus.BraceFreeIffAllFilled` | api/benchmarking/generate_corpus.py:42-127 | a filled template is free of braces if and only if every hole has a value |
| `GenerateCorpus.GeneratedClause` | api/benchmarking/generate_corpus.py:140-156 | for brace-free values a generated clause is the simultaneous substitution of each value for its own name, provider to city, with no brace left if and only if the template names no other |
| `GenerateCorpus.RenderOne` | api/benchmarking/generate_corpus.py:154-155 | text stands for itself, and a hole for its name in braces until it has a value |
| `GenerateCorpus.RenderConcat` | api/benchmarking/generate_corpus.py:42-127 | templates are read piece by piece |
| `Anonymizer.ApplyNer` | api/benchmarking/anonymizer.py:212-262 | splicing from right to left gives the left-to-right rewrite; each entity of kind PERSON, ORG, GPE, DATE or MONEY whose text lacks the mask shows as the mask and its kind, exactly these are recorded, with confidence 0.8 for a person and 0.6 else, and every character in none of them stays |
| `Anonymizer.SelectSpans` | api/benchmarking/anonymizer.py:232-246 | the entities of the five kinds, in order, at their fixed confidence; which they are is WantedIff |
| `Anonymizer.WantedIff` | api/benchmarking/anonymizer.py:234-246 | a span is selected if and only if some entity of a listed kind has its offsets, kind and confidence |
| `Anonymizer.RecordedIff` | api/benchmarking/anonymizer.py:250-254 | a span is recorded if and only if it is that of an entity of the five kinds whose text lacks the mask |
| `Anonymizer.LabelShows` | api/benchmarking/anonymizer.py:255-260 | such an entity shows as the mask with its kind in parentheses, at its shifted start |
| `Anonymizer.CharacterStays` | api/benchmarking/anonymizer.py:248-262 | a character in no such entity is still there, at its shifted position |
| `Anonymizer.OccursIff` | api/benchmarking/anonymizer.py:252 | the mask test holds if and only if the text is something, the mask, and something |
| `Anonymizer.ReplaceBackwards` | api/benchmarking/anonymizer.py:248-262 | the splicing loop over reversed spans computes the rewrite |
| `Anonymizer.SortedIsReverse` | api/benchmarking/anonymizer.py:250 | sorting ordered spans by descending start reverses them |
| `Anonymizer.UntouchedBefore` | api/benchmarking/anonymizer.py:250-256 | up to the end of the next span the text is still the original, so the mask test reads original text |
| `Anonymizer.BeforeLastSpan` | api/benchmarking/anonymizer.py:249-262 | one splice extends the rewrite by one span |
| `Anonymizer.RewriteLength` | api/benchmarking/anonymizer.py:248-262 | the length changes by the label lengths minus the lengths of the replaced spans, exactly |
| `Anonymizer.OutsideIsVerbatim` | api/benchmarking/anonymizer.py:248-262 | every character outside the spans is preserved, at its shifted position |
| `Anonymizer.SpanIsLabelled` | api/benchmarking/anonymizer.py:248-262 | every span shows its label, or its own text when it already held the mask, at its shifted start |
| `Anonymizer.Anonymize` | api/benchmarking/anonymizer.py:102-158 | blank text is returned as it is with full confidence; otherwise the entities found are reported sorted by start, none lost, and the counters and confidence are theirs |
| `Anonymizer.ConfidenceBounds` | api/benchmarking/anonymizer.py:264-289 | with entity confidences in [a, b] the overall one is in [a/2, b] |
| `Anonymizer.ConfidenceIs` | api/benchmarking/anonymizer.py:276-289 | the confidence in closed form: the mean confidence, halved, plus the other half for the share of entities at 0.8 or more |
| `Anonymizer.FullConfidenceMeansNothingFound` | api/benchmarking/anonymizer.py:264-289 | the confidence is 1 if and only if no entity was found |
| `Dataset.CutTilesIff` | ml/dataset.py:348-357 | three Python slices tile a non-empty category if and only if the sizes fit, the validation size covers it or the test size exceeds it; otherwise examples repeat; the test slice is never empty |
| `Dataset.ProperRatiosFit` | ml/dataset.py:348-357 | ratios strictly between 0 and 1 with sum at most 1 always fit, down to a single example |
| `Dataset.ShareIsSize` | ml/dataset.py:351-352 | a share is the whole part of the number times the ratio, and at least one, for all ratios |
| `Dataset.CutIsProportioned` | ml/dataset.py:350-357 | for proper ratios a category of n is cut into its test share, its validation share and the rest; a single example is tested |
| `Dataset.SplitIsProportioned` | ml/dataset.py:318-367 | the same for every category of the dataset in the three results, whatever the shuffles |
| `Dataset.CategoryCases` | ml/dataset.py:339 | no category and the empty one count as unknown |
| `Dataset.EverythingToTest` | ml/evaluate.py:110-112 | ratios 1 and 0 give the whole category as test; they tile it only for a single example |
| `Dataset.CategoriesAreComplete` | ml/dataset.py:335-342 | the categories met are distinct, complete and non-empty |
| `Dataset.GroupsCover` | ml/dataset.py:335-342 | the categories divide the examples: their union is the input, as a multiset |
| `Dataset.CollectConservesIff` | ml/dataset.py:344-362 | nothing is lost or repeated over all categories if and only if every category fits; the total never falls below the input |
| `Dataset.SplitIsStratified` | ml/dataset.py:335-367 | for any shuffle of the categories, train + val + test is a permutation of the input if and only if every category fits, and every category has a test example |
| `Dataset.ProperSplitConserves` | ml/dataset.py:318-367 | for proper ratios the split of any dataset is a permutation of it |
| `Dataset.CollectAllForTest` | ml/evaluate.py:110-112 | with ratios 1 and 0 the test part is the whole dataset |
| `Dataset.Shuffle` | ml/dataset.py:346 | a shuffle by arbitrary swaps is a permutation |
| `Dataset.GroupByCategory` | ml/dataset.py:336-342 | the dictionary of categories in first-seen order, each with its examples in order |
| `Dataset.TrainTestSplit` | ml/dataset.py:318-367 | the method that shuffles, cuts and collects; the permutation condition holds of its results for all ratios; for proper ratios every category has the whole part of its test and validation share, at least one, and the rest in train |
| `Dataset.GetCategoryDistribution` | ml/dataset.py:405-420 | how often each category occurs |
| `Dataset.GenerateSyntheticExamples` | ml/dataset.py:203-316 | the same number of examples, count // 12, in each of the twelve categories, severities within 3 and 8 |
| `Dataset.PerCategoryFills` | ml/dataset.py:281-284 | twelve times the number per category is the count, but for less than twelve |
| `Dataset.SyntheticTestSet` | ml/evaluate.py:105-117 | without a stored test set, the evaluation set has count // 12 examples of each category, none lost to the split |
| `Freshness.StatusWorsens` | api/benchmarking/freshness.py:204-219 | without an update, time only worsens a status |
| `Freshness.StatusByAge` | api/benchmarking/freshness.py:204-219 | green if and only if less than thirty days old, red if and only if ninety or more |
| `Freshness.GreenToRed` | api/benchmarking/freshness.py:204-219 | from green to red takes more than sixty days |
| `Freshness.TimesCountedBounds` | api/benchmarking/freshness.py:182-184 | read at three successive moments a segment is counted once to three times, at most twice within sixty days, and once if and only if it is not seen under two statuses |
| `Freshness.CountsCover` | api/benchmarking/freshness.py:172-202 | green + amber + red is never below the number of segments, at most three times it, and equal to it if and only if no segment is seen under two statuses |
| `Freshness.NoCrossingAddsUp` | api/benchmarking/freshness.py:172-202 | when no segment crosses a boundary during the call, the counts add up to the total |
| `Freshness.CountedThreeTimes` | api/benchmarking/freshness.py:182-184 | a segment that is counted as green, amber and red in one call |
| `Freshness.ScoreBound` | api/benchmarking/freshness.py:186-192 | the score lies between 0 and 1.5, however long the call takes |
| `Freshness.ScoreIs` | api/benchmarking/freshness.py:190-192 | the score is the green count plus half the amber count over the total, rounded; nothing for no segments |
| `Freshness.Clock.UtcNow` | api/benchmarking/freshness.py:129-133 | successive readings never decrease |
| `Freshness.FreshnessTracker.UpdateSegment` | api/benchmarking/freshness.py:65-99 | one entry is replaced by a new object with the given data and the status of this moment; all others keep their objects |
| `Freshness.FreshnessTracker.GetStatus` | api/benchmarking/freshness.py:101-120 | refreshes in place the days and status of that segment and touches no other, or returns nothing for an unknown key |
| `Freshness.FreshnessTracker.GetAllStatuses` | api/benchmarking/freshness.py:122-135 | every segment shows its status as of its own reading of the clock |
| `Freshness.FreshnessTracker.GetSegmentsByStatus` | api/benchmarking/freshness.py:137-151 | the segments with that status at their own reading, in order |
| `Freshness.FreshnessTracker.GetStaleSegments` | api/benchmarking/freshness.py:153-162 | the segments amber or red at their own reading, in order |
| `Freshness.FreshnessTracker.GetFreshnessSummary` | api/benchmarking/freshness.py:172-202 | the counts of three successive passes with their bounds, equal to the total if and only if no segment is seen under two statuses; the score; and one row for each segment that the last pass finds stale |
| `Freshness.PickedAreWanted` | api/benchmarking/freshness.py:137-162 | of segments with different keys, those with a wanted status at their reading are listed, once each, and no others |
| `Freshness.FreshnessTracker.Select` | api/benchmarking/freshness.py:148-162 | the list comprehensions select by the statuses just computed |
| `Freshness.ShownInRows` | api/benchmarking/freshness.py:193-201 | the rows built from the statuses shown are the rows of the segments stale at their readings |
| `Freshness.RowsOfIff` | api/benchmarking/freshness.py:193-201 | a row is listed if and only if it is that of a segment at least thirty days old when read, with its key, type, whole days and status |
| `Freshness.FreshnessTracker.RemoveSegment` | api/benchmarking/freshness.py:221-230 | that key goes, the others stay in their order, and whether it was there is returned |
| `AdminApi.AdminApi.TriggerRefresh` | api/benchmarking/admin_api.py:111-153 | an unknown key changes nothing; otherwise this segment alone gets an update time read during the call and the status of a moment since, keeps its other data, and the report carries that status and one from before; in less than thirty days the new status is green; no other segment is touched |
| `AdminApi.AdminApi.TriggerAllRefresh` | api/benchmarking/admin_api.py:155-179 | exactly the segments found stale are refreshed and reported, in order, each with a non-green status from before; every segment stale when the call begins is among them; every other keeps its object and timestamp; in less than thirty days every report and every stored status is green |
| `AdminApi.AdminApi.RefreshEach` | api/benchmarking/admin_api.py:169-171 | the loop over the stale segments: each report carries the stored status of its refreshed segment to the end |
| `AdminApi.StaleAtStartIsPicked` | api/benchmarking/admin_api.py:166 | every segment stale when the call begins is among those refreshed |
| `AdminApi.StillStale` | api/benchmarking/admin_api.py:126-148 | a segment found stale is reported stale when its turn comes, however late |
| `AdminApi.RefreshedIsGreen` | api/benchmarking/admin_api.py:155-179 | less than thirty days after the call began, the stored and the reported status of a refreshed segment are green |
| `AdminApi.StaleIsReported` | api/benchmarking/admin_api.py:166-171 | each key stale at the start of the call has a report |
| `ModelRegistry.PointerAlwaysPresent` | ml/model_registry.py:179-250 | in every reachable state the production pointer names a present version |
| `ModelRegistry.RegisteringSets` | ml/model_registry.py:122-169 | the id has a new staging version with that parent; every other version and the production id stay |
| `ModelRegistry.PromotingSets` | ml/model_registry.py:193-213 | the id is in production with who and when, the former production model, if another, is archived, every other version stays; an unknown id changes nothing |
| `ModelRegistry.RollingBackSets` | ml/model_registry.py:229-243 | the same on a rollback, where the former is marked as rolled back and the target keeps who deployed it |
| `ModelRegistry.DeletingRemoves` | ml/model_registry.py:331-341 | the production model stays; any other id is absent afterwards, and every other version stays |
| `ModelRegistry.ExclusiveStepIff` | ml/model_registry.py:198-218 | a step keeps the production status exclusive if and only if it does not take over from a production model with the empty id |
| `ModelRegistry.AlwaysExclusiveIff` | ml/model_registry.py:122-250 | a run has at most one production version throughout if and only if no step takes over from the empty id |
| `ModelRegistry.NonEmptyIdsStayExclusive` | ml/model_registry.py:122-250 | runs over non-empty ids never have two versions with the production status |
| `ModelRegistry.EmptyIdKeepsProductionStatus` | ml/model_registry.py:198-202 | counterexample: two production versions after four operations, because the empty id fails the truth test |
| `ModelRegistry.MarkedStepIff` | ml/model_registry.py:168 | a step keeps the pointed-to version marked production if and only if it does not register that id again |
| `ModelRegistry.RegisteringAgainUnmarks` | ml/model_registry.py:168 | counterexample: three operations after which the production model has the staging status |
| `ModelRegistry.AlwaysMarkedIff` | ml/model_registry.py:122-341 | a run has its production model marked throughout if and only if no step registers the current production id again |
| `ModelRegistry.FreshIdsStayMarked` | ml/model_registry.py:122-341 | with ids never reused the production model is always marked, whatever the interleaving |
| `ModelRegistry.ChainIsUnique` | ml/model_registry.py:309-320 | the walk along parent links has one result |
| `ModelRegistry.ChainIsDistinct` | ml/model_registry.py:309-320 | a walk that ends visits no version twice |
| `ModelRegistry.ChainIsShort` | ml/model_registry.py:309-320 | and is no longer than the number of versions |
| `ModelRegistry.FiniteIffStopped` | ml/model_registry.py:309-320 | the walk ends if and only if it has stopped after as many steps as there are versions |
| `ModelRegistry.RunIsOrdered` | ml/model_registry.py:122-169 | with parents registered first and ids not reused, parents precede children in registration order, after any run |
| `ModelRegistry.LineagesAreFinite` | ml/model_registry.py:300-320 | for such runs every history walk ends |
| `ModelRegistry.FiniteStepIff` | ml/model_registry.py:122-169 | a step keeps every lineage finite if and only if it does not register an id that the walk from its parent comes to |
| `ModelRegistry.AlwaysFiniteIff` | ml/model_registry.py:122-341 | every lineage of every state of a run is finite if and only if no step registers an id that the walk from its parent comes to |
| `ModelRegistry.ReusedIdCycle` | ml/model_registry.py:300-320 | counterexample: registering an id again closes a cycle although parents come first |
| `ModelRegistry.LateParentCycle` | ml/model_registry.py:300-320 | counterexample: so does a parent registered after its child, with all ids fresh |
| `ModelRegistry.ModelRegistry.RegisterModel` | ml/model_registry.py:122-177 | the registry object steps as the state machine does: a new staging version under that id |
| `ModelRegistry.ModelRegistry.RetireCurrent` | ml/model_registry.py:198-206 | the version pointed to, if any, steps down in place; rollback does the same at 234-238 |
| `ModelRegistry.ModelRegistry.PromoteToProduction` | ml/model_registry.py:179-218 | the object, with its status fields changed in place, steps as the state machine does |
| `ModelRegistry.ModelRegistry.RollbackTo` | ml/model_registry.py:220-250 | the same for rollback |
| `ModelRegistry.ModelRegistry.DeleteVersion` | ml/model_registry.py:322-341 | refused for the production model and for an unknown id; otherwise that entry of the dictionary goes, and it alone |
| `ModelRegistry.ModelRegistry.GetProductionModel` | ml/model_registry.py:263-271 | in reachable states nothing is returned exactly when the production id is unset or empty; what is returned carries that id, has the production status whenever the state is marked, and is the only version with it whenever the status is exclusive |
| `ModelRegistry.ModelRegistry.GetVersionHistory` | ml/model_registry.py:300-320 | on a finite lineage the loop returns the whole chain of parents, each version once |
| `Evaluate.Evaluate` | ml/evaluate.py:139-217 | the scoring loop and the aggregation after it compute the metrics of the three lists of scored, correct and error entries; an example may raise before its category is counted or in the severity arithmetic after it; 248-325 is the same loop |
| `Evaluate.LedgersAgree` | ml/evaluate.py:144-210 | category totals sum to the scored examples, correct counts to the correct predictions, and all accuracies lie in [0, 1] even when examples fail |
| `Evaluate.CorrectWithinScored` | ml/evaluate.py:165-178 | no category has more correct than scored examples |
| `Evaluate.MetricsMean` | ml/evaluate.py:165-210 | the accuracy times the number of examples is the number of correct ones; a category has figures if and only if one of its examples was scored, and they are its counts and their ratio |
| `Evaluate.ErrorsAre` | ml/evaluate.py:180-185 | the error list has one entry for each example with both severities, in order: how far they are apart |
| `Evaluate.SeverityMeans` | ml/evaluate.py:196-200 | MAE is the mean of that list, and the square of RMSE the mean of its squares |
| `Evaluate.MeanSquareBound` | ml/evaluate.py:196-200 | the squared mean is at most the mean square, with equality if and only if all values are equal |
| `Evaluate.MaeAtMostRmse` | ml/evaluate.py:196-200 | in every evaluation MAE is at most RMSE, with equality if and only if all errors are equal |
| `Evaluate.CompareIsAntisymmetric` | ml/evaluate.py:341-387 | comparing the other way round negates every rounded difference and swaps every pair, over the same categories |
| `Evaluate.CompareMeans` | ml/evaluate.py:341-387 | each difference is what the second evaluation gains in accuracy, or saves in severity error, as rounded; every category of either has a row with its own figures |
| `Evaluate.NotBothImprove` | ml/evaluate.py:351-358 | the improvement percentage is not positive both ways |
| `Classification.ConfidenceRange` | api/benchmarking/classification.py:68-151 | the reported confidence is between 0.5 and 1 for all percentiles and thresholds |
| `Classification.VerdictIff` | api/benchmarking/classification.py:71-96 | favorable if and only if at or above its threshold, unfavorable if and only if at or below the other and not favorable |
| `Classification.ConfidenceIs` | api/benchmarking/classification.py:68-151 | for thresholds on both sides of the middle: from one half at the threshold, growing with the distance relative to the room beyond, until full; in the market falling with the distance from the middle; rounded |
| `Classification.AtMarketMeansApart` | api/benchmarking/classification.py:95-107 | the fixed confidence for equal thresholds is never reported for a market verdict |
| `Classification.MirrorSymmetricIff` | api/benchmarking/classification.py:59-151 | with thresholds F and 100 - F the classification is mirror-symmetric for all percentiles if and only if F > 50 |
| `Classification.ValueAtKnots` | api/benchmarking/classification.py:197-227 | each knot gives its own statistic |
| `Classification.Interpolates` | api/benchmarking/classification.py:197-227 | between two percentiles of one segment the value is interpolated in proportion |
| `Classification.MonotoneIffOrdered` | api/benchmarking/classification.py:197-227 | the value is monotone in the percentile if and only if the statistics are ordered, and then stays between the outer ones |
| `Classification.NoJumps` | api/benchmarking/classification.py:197-227 | for ordered statistics the value is Lipschitz across all knots, hence continuous |
| `KeywordClassifiers.ScoreRow` | api/benchmarking/contract_type_classifier.py:242-252 | the accumulating loops compute the score of a row |
| `KeywordClassifiers.Classify` | api/benchmarking/contract_type_classifier.py:224-266 | the first kind with the largest score, with its capped confidence; the default when blank or nothing scored |
| `KeywordClassifiers.Largest` | api/benchmarking/counterparty_detector.py:125-132 | the first of the largest entries and the sum of all |
| `KeywordClassifiers.ScoresIffMatches` | api/benchmarking/counterparty_detector.py:103-119 | a row scores above zero if and only if a keyword or a counted pattern matches |
| `KeywordClassifiers.ScoreIs` | api/benchmarking/contract_type_classifier.py:242-252 | the score in closed form: a pattern counts for three keywords of a contract type, six of a counterparty, none in an industry |
| `KeywordClassifiers.DefaultsAre` | api/benchmarking/industry_classifier.py:201-202 | with nothing found each classifier gives its default kind and low confidence, none for a blank text |
| `KeywordClassifiers.WinnerIsFirst` | api/benchmarking/counterparty_detector.py:125-126 | the first of the rows with the largest score is chosen |
| `KeywordClassifiers.ConfidenceIs` | api/benchmarking/industry_classifier.py:206-209 | the share of the total, or of one if the total is less, up to 0.9 for industries and 0.95 else; rounded |
| `KeywordClassifiers.DistributionIs` | api/benchmarking/contract_type_classifier.py:295-303 | one entry for each row, for industries each that scored, with its rounded share of the total; without a score one for each kind, all the same |
| `KeywordClassifiers.SharesSum` | api/benchmarking/industry_classifier.py:211-242 | rounded shares sum to the total share within half a step each |
| `KeywordClassifiers.WinnerMatches` | api/benchmarking/contract_type_classifier.py:254-262 | a winner that is not the default has a row in which a keyword or a counted pattern matches |
| `KeywordClassifiers.SilentKindIsDefault` | api/benchmarking/contract_type_classifier.py:205-209 | a kind whose row lists nothing to look for, like the last contract type, is chosen only by default: the text is blank or no row matches |
| `KeywordClassifiers.ConfidenceBelowShare` | api/benchmarking/industry_classifier.py:178-209 | the confidence is at most the rounded share of the winner, and equal to it when the total is at least one and the cap does not bind |
| `KeywordClassifiers.WinnerLeadsItsDistribution` | api/benchmarking/contract_type_classifier.py:238-303 | whenever something matches, the winner has the largest share of its own distribution, its confidence is at most that share, and the k shares sum to 1 within k half-steps; for all three classifiers |
| `AbTesting.ImprovesIff` | ml/ab_testing.py:288-299 | a metric counts as improved if and only if its control mean is not zero and it rose by more than half a hundredth of a percent of that mean |
| `AbTesting.WorseIsPromoted` | ml/ab_testing.py:270-413 | counterexample: with two metrics of the default configuration for which less is better, a treatment that doubles both is recommended for promotion |
| `AbTesting.ImprovementOneWay` | ml/ab_testing.py:288-299 | a positive rounded improvement one way is not positive the other way, zero means included |
| `AbTesting.EvaluationMeans` | ml/ab_testing.py:255-319 | an evaluation exists if and only if there are enough samples and both arms have some; it reports the averages of each arm under its own name and for each metric what the treatment gains |
| `AbTesting.RecommendIff` | ml/ab_testing.py:366-413 | promotion if and only if seven in ten metrics improved, discontinuation if and only if at most three in ten, mixed between, insufficient below a hundred samples of an arm |
| `AbTesting.OneSample` | ml/ab_testing.py:271-276 | an arm takes its own samples, and a metric the value recorded for it; with OfModelConcat and ValuesConcat this is so of any list |
| `AbTesting.SwappedImprovements` | ml/ab_testing.py:288-299 | exchanging the arms gives the same metrics, and no metric improves both ways |
| `AbTesting.PromotionIsOneSided` | ml/ab_testing.py:270-413 | if an evaluation over at least one metric recommends promotion, the one with the arms exchanged exists and recommends discontinuing |
| `AbTesting.NoMetricsPromotesBoth` | ml/ab_testing.py:371-413 | without metrics a significant experiment recommends promotion both ways: the condition is needed |
| `AbTesting.ABTestingOrchestrator.StartExperiment` | ml/ab_testing.py:187-206 | stores the configuration and empties the results of that name, and of no other |
| `AbTesting.ABTestingOrchestrator.RecordResult` | ml/ab_testing.py:222-242 | appends one sample to that experiment, and to no other |
| `AbTesting.ABTestingOrchestrator.StopExperiment` | ml/ab_testing.py:438-446 | removes that experiment and its results, and no other |
| `AbTesting.ABTestingOrchestrator.Evaluate` | ml/ab_testing.py:244-319 | the verdict of the recorded samples, or nothing for an unknown experiment |
| `AbTesting.CompareMetrics` | ml/ab_testing.py:288-299 | the loop fills the dictionary of improvements for the metrics both arms have |
| `AbTesting.AggregateMetrics` | ml/ab_testing.py:321-345 | the loop fills the dictionary of averages over the samples that carry the metric |
| `Rounding.RoundMonotone` | api/benchmarking/contract_type_classifier.py:263-266 | rounding to two or four places is monotone |
| `Rounding.RoundError` | api/benchmarking/contract_type_classifier.py:297-301 | rounding moves a value by at most half a step |
| `Rounding.TiesToEven` | api/benchmarking/contract_type_classifier.py:266 | halfway between two steps the even one is taken |
| `Rounding.RoundOdd` | ml/evaluate.py:345-377 | rounding commutes with negation |
| `DocConverter.BlocksTile` | generate_docx.py:31-106 | the blocks tile the lines in order and every table takes the whole run of rows |
| `DocConverter.TilingIsUnique` | generate_docx.py:31-106 | no other tiling of that shape exists |
| `DocConverter.Convert` | generate_docx.py:31-106 | the loop ends although its cursor steps back, visits the blocks of the grammar in order, and writes what each of them stands for |
| `DocConverter.TakeTable` | generate_docx.py:53-57 | the inner loop takes the whole run of rows, and stops at its end |
| `DocConverter.WriteTable` | generate_docx.py:59-84 | header and data rows, cut or padded to the header; nothing without both |
| `DocConverter.SkipCode` | generate_docx.py:93-95 | the loop meant to skip fenced code moves nowhere |
| `DocConverter.SplitJoins` | generate_docx.py:31 | splitting text at a character loses nothing: the parts hold no separator and join to the text; the same for table cells at 60-63 |
| `DocConverter.BulletsAreNeverEmpty` | generate_docx.py:85-92 | a bullet line always has text, so its emptiness test never fails |
| `DocConverter.HeadingsAre` | generate_docx.py:36-51 | two, three and four hash marks give headings of that level with the stripped text; the two titles are left out |
| `DocConverter.BulletsAre` | generate_docx.py:85-92 | both marks give a bullet with the stripped text, nested if and only if set in by more than two |
| `DocConverter.ParagraphsAre` | generate_docx.py:96-104 | a line that begins with none of the five marks is a paragraph of its stripped text |
| `DocConverter.HalfRowsAreParagraphs` | generate_docx.py:52-54 | a line that begins with a bar and does not end with one opens no table, though it continues one |
| `DocConverter.NothingWritten` | generate_docx.py:39-41 | blank lines and rules write nothing |
| `DocConverter.FencesAre` | generate_docx.py:93-95 | a fence writes nothing |
| `DocConverter.RowsAreTables` | generate_docx.py:52-54 | a line of cells between bars opens a table and continues one |
| `DocConverter.TablesAre` | generate_docx.py:59-84 | a table of rows of cells gives the header, no rule line, and each row with its stripped cells in their columns, blank where it is short |
| `DocConverter.JoinSplits` | generate_docx.py:60-63 | splitting what was joined gives the parts back |
| `DocConverter.Parts` | generate_docx.py:36-106 | any text is white space, the stripped text, and white space |

## Left out

What a stated member does not cover:

- ModelRegistry.ModelRegistry.GetVersionHistory: is called on finite lineages only, because on a cyclic one the source does not return; `ModelRegistry.FiniteIffStopped` says exactly which these are.
- Anonymizer.ApplyNer: takes the recogniser's entities to be non-empty, inside the text, in order and disjoint, as spaCy guarantees.
- Anonymizer.Anonymize: takes the text and the entities of the regular-expression pass as inputs; the `text`, `label` and `source` fields of an entity are not kept.
- Dataset.GetCategoryDistribution: the sorted key order of the returned dictionary is not modelled.
- Dataset.GenerateSyntheticExamples: the wording of the generated clauses is not modelled, only their categories, number and severities.
- CorpusIngestion.CorpusIngestionPipeline.Ingest: ids come with the batch and are assumed distinct and new, which is what random uuids are for; without that assumption the dictionary could overwrite a clause.
- AbTesting.ABTestingOrchestrator.RecordResult: a metric named `model_id` or `timestamp`, which would overwrite the field of that name, is not modelled.
- Evaluate.MaeAtMostRmse: the root is any non-negative number whose square is the mean square.
- DocConverter.Convert: white space is ASCII white space, and a paragraph is not split into bold and plain runs.

Not modelled at all:

- Embeddings, spaCy, regular expressions, word splitting, language-model calls and training: similarities, word sets, entities, match counts and predictions are inputs.
- The quality filter: its score and its verdict are arbitrary.
- IEEE rounding: floats are exact reals, and `round` is half-even on them.
- Random choices and shuffles are arbitrary choices; the clock is an arbitrary non-decreasing sequence of readings.
- Registry files, checksums, listings and summaries; logs, rationales and error messages; pass-through fields of clauses and samples.
- A segment without an update time, whose status is never recomputed.
- Aliasing of the objects that the corpus and the dataset hold: clauses and examples are values there.
- Shadow deployments, traffic routing, alerting, billing, the web API and the frontend.
- The other document converters, which repeat the loop of `generate_docx.py`.
