# Verified model of the research agent's context budget and coverage accounting

This project models, in Dafny, the parts of the deep-research agent that decide what a
model call gets to see and how a run's research coverage is scored, and proves what those
parts promise for every input.

- **Context budget manager** (`apps/api/app/context`). A token window is split
  (`Manager.AllocateBudget`), candidates are capped by type, ranked by maximal marginal
  relevance and thinned of near-duplicates (`Ranker`, on the shared greedy choice of
  `Greedy`), and a loop admits, compresses or rejects every candidate (`Build.BuildContext`,
  with the extractive compressor of `Compressor` and the text operations of `Text`).
  `BuildProperties` holds the theorems about a whole build, `Redundancy` those about
  near-duplicates in the prompt under the node policies of `Policies`.
- **Source selection** (`apps/api/app/context/source_selector.py`). Texts are cut into
  offset-preserving windows (`SourceSelector`) or blocks (`BlockSelector`), ranked greedily
  and returned with neighbours and headings.
- **Coverage accounting**. The replayed coverage score (`Coverage`), the split of a coverage
  shortfall over its causes (`CoverageLoss`), and the evidence-to-claim funnel with its
  dimension matrix (`Funnel`).
- **Smaller parts**. Paired performance comparison with a clustered bootstrap
  (`PerformanceGrader`), era-stratified sampling (`EraSampling`) and UUIDv7 identifiers
  (`Identifiers`, section 5.7 of RFC 9562).

Conventions:

- A loop of the program is a method with loop invariants, proved equal to a specification
  function or predicate; the promises are lemmas about that specification. Where the
  program iterates over a Python set or takes `max` over one, the method picks elements in
  an arbitrary order, so equality with the specification says that the order is irrelevant.
- Floating-point numbers are reals; scores and ratios are stated before `round(...)`.
- What depends on regular expressions or Unicode tables and carries no promise of its own is
  a parameter, so results hold for every choice of it: the lexical tokenizer (`features`),
  the term extractor (`terms`), the importance pattern (`important`), the source-marker match
  (`marked`), the heading test (`isHeading`), the first line of a block (`firstLine`) and the
  matches of the block boundary (`matches`: ordered, non-overlapping, possibly empty spans).
  Sentence splitting, stripping and joining are modelled exactly.
- The outcome of `random.choices` is a parameter too (`draws`).

Findings, each proved in both directions or with a concrete input:

- Two token estimators are written differently but agree (`Manager.EstimatorsAgree`).
- The reported token total does not count the separators of the rendered prompt.
  `BuildProperties.RenderedBound` bounds the excess; `BuildProperties.RenderedExactly` gives
  the prompt's estimate and the exact condition under which the total covers it;
  `BuildProperties.SeparatorsAreUncounted` shows a request where it does not. Up to 769
  candidates the safety margin absorbs it (`BuildProperties.PromptFits`).
- Below 32 target tokens the compressor's floor of 96 characters can make it return nothing
  although one sentence would fit (`Compressor.FloorCanOvershoot`, and for every such target
  `Compressor.FloorMattersExactly`); from 32 tokens on it succeeds exactly on oversized,
  non-blank input (`Compressor.CompressesExactly`).
- `docs/architecture/0003-v1-focus-and-innovation.md` (section 5.2) promises that key figures
  are never lost. A long line of digits can give way to a short plain one
  (`Compressor.ImportantSentenceCanBeLost`); every important sentence survives exactly when
  all of them together fit into the room (`Compressor.KeyFiguresSurviveExactly`).
- The redundancy threshold is about the contents before compression. Two items without a
  common feature can both be selected and hold the same text in the prompt
  (`Redundancy.CompressionCanCoincide`). For a policy the threshold holds of every prompt
  exactly when it cannot let something be compressed beside something else
  (`Redundancy.KeptApartExactly`), which none of the program's policies meets
  (`Redundancy.EveryPolicyCanCoincide`); for a request it is enough that the candidates fit
  the input budget or that nothing unprotected is compressible (`Redundancy.SafeRequests`).
- A block's heading is described as the nearest one before it, but only three blocks are
  searched (`BlockSelector.HeadingKeepsPromiseExactly`, with an input in
  `BlockSelector.HeadingCanBeMissed`); the code is followed.
- With neighbour expansion the limit is exceeded exactly when it cuts anything off
  (`BlockSelector.NeighboursExceedLimit`).
- Funnel and matrix disagree on verified claims exactly when a claim without a dimension key
  has a number of owners between the bars of the empty key and of `(none)`; this is the exact
  condition of their agreement (`Funnel.VerifiedAgreeExactly`, with an input in
  `Funnel.VerifiedCanDisagree`). The claims table admits an empty key but no absent one, and
  no current writer stores an empty key, so this does not happen today.
- That the funnel narrows rests on claim ids being unique and not empty, as primary keys are:
  this is exactly the condition (`Funnel.NestsExactly`).
- A total cap below one still lets one row into the era sample (`EraSampling.SampleSize`).
  The only caller passes 36, so this does not happen today.

## Model

| member | source | states |
|---|---|---|
| Manager.EstimatorsAgree | apps/api/app/context/manager.py:48-52 | the manager's and the compressor's token estimate are the same number, the least count of three-character tokens covering the text |
| Manager.AllocationIsLargest | apps/api/app/context/manager.py:55-79 | the granted input budget is the largest affordable one (70% of the window, a tenth and at least 512 tokens free beside the output, the caller's cap), the safety margin the least of at least 512 that is a tenth of the window, and the split fails exactly for a small window or an unaffordable minimum |
| Manager.AllocationInputs | apps/api/app/context/manager.py:62-66 | an absent or zero window stands for 16000 tokens, an absent or zero provider limit leaves the requested output, any other one cuts it |
| Greedy.PickWinner | apps/api/app/context/ranker.py:53-65 | whatever order the pool is scanned in, the item found beats every other one by (marginal relevance, second score, smaller index) |
| Greedy.Select | apps/api/app/context/source_selector.py:46-62 | the selection loop yields the unique greedy selection for its pool and limit |
| Greedy.GreedyOrderUnique | apps/api/app/context/ranker.py:50-76 | any two lists that take a maximal item at each step and stop for the same reason are equal, so set iteration order cannot matter |
| Greedy.UnprunedSelection | apps/api/app/context/source_selector.py:169-178 | without pruning, min(limit, n) distinct items are taken, each the winner among those left, and all of them when the limit allows |
| Greedy.UnprunedSelectionUnique | apps/api/app/context/source_selector.py:169-178 | conversely, a list of that length that takes a winner at each step is the selection |
| Greedy.MarginalNeverRises | apps/api/app/context/ranker.py:53-63 | choosing more items never raises an item's marginal relevance |
| Greedy.FirstIsMostRelevant | apps/api/app/context/ranker.py:53-65 | the first item taken has maximal relevance, ties broken by second score and index |
| Greedy.SelectionTakesBest | apps/api/app/context/ranker.py:50-76 | each item taken beats every item not taken before it that is still below the threshold to those taken |
| Greedy.TakenAreNovel | apps/api/app/context/ranker.py:66-76 | any two taken items overlap strictly less than the threshold |
| Greedy.DroppedHasWitness | apps/api/app/context/ranker.py:66-74 | every dropped item overlaps a taken one at least by the threshold |
| Greedy.Jaccard | apps/api/app/context/ranker.py:23-28 | the similarity lies in [0,1], is the shared over the united features, 1 exactly for equal non-empty features and 0 exactly for disjoint ones |
| Greedy.JaccardSymmetric | apps/api/app/context/ranker.py:23-28 | similarity is symmetric |
| Ranker.EligibleCount | apps/api/app/context/ranker.py:39-48 | among any prefix, the eligible items of a type number as many as its unprotected items, clamped at the cap |
| Ranker.ApplyTypeCaps | apps/api/app/context/ranker.py:36-48 | the counting loop keeps exactly the unprotected items with fewer than cap-many items of their type before them |
| Ranker.SelectNovel | apps/api/app/context/ranker.py:50-77 | the ranking loop terminates with the unique greedy selection and drops exactly the rest of the pool |
| Ranker.MmrOrder | apps/api/app/context/ranker.py:31-77 | the returned order is the protected positions in input order followed by the greedy selection of the eligible ones; the pruned set is every other unprotected position |
| Ranker.OrderPartitions | apps/api/app/context/ranker.py:36-77 | order and pruned set partition the candidates, no position repeats, protected ones come first and are never pruned |
| Ranker.SelectedAreDissimilar | apps/api/app/context/ranker.py:66-76 | two selected unprotected candidates are less similar than the redundancy threshold |
| Ranker.CapsHold | apps/api/app/context/ranker.py:39-48 | no item type is selected more often than its cap |
| Ranker.RankedByScore | apps/api/app/context/ranker.py:53-76 | the k-th selected candidate has the largest (lambda * rank score - (1 - lambda) * largest similarity to those selected before, rank score, -position) among the eligible ones not selected before and below the threshold to those |
| Ranker.PrunedExactly | apps/api/app/context/ranker.py:41-77 | a candidate is pruned exactly when it is unprotected and either cap-many unprotected candidates of its type come before it or it is too similar to another, selected one |
| Text.StripExact | apps/api/app/context/compressor.py:38-42 | stripping removes exactly the white space at both ends and nothing else |
| Text.SentencesLoseOnlySpace | apps/api/app/context/compressor.py:11-42 | splitting a text into sentences loses white space only, every sentence starts with a visible character, and there is a sentence unless the text is blank |
| Text.SplitExactly | apps/api/app/context/compressor.py:11-42 | no sentence has a line feed inside or white space after one of the six end marks, the sentences lie in the text in order with only white space around them, and between two of them there is a line feed, or an end mark right before |
| Text.SpacesAre | apps/api/app/context/compressor.py:38-42 | the 29 code points that count as white space |
| Text.JoinLength | apps/api/app/context/compressor.py:65 | the length of a joined text is the sum of its parts plus one separator fewer than parts |
| Text.JoinAppend | apps/api/app/context/compressor.py:65 | joining two lists puts exactly one separator between their joined texts |
| Compressor.CompressCandidate | apps/api/app/context/compressor.py:31-95 | the compression loop and its guards compute the specified compression |
| Compressor.RankedIsSorted | apps/api/app/context/compressor.py:45-51 | the ranking lists every sentence once, sorted by (not important, position) |
| Compressor.UsedIsOutputLength | apps/api/app/context/compressor.py:52-65 | the running count equals the length of the document-order text it stands for and never exceeds the room |
| Compressor.ImportantNeverDisplaced | apps/api/app/context/compressor.py:45-59 | the important sentences chosen are exactly, in order, those a run over the important ones alone would choose |
| Compressor.ImportantLostOnlyForRoom | apps/api/app/context/compressor.py:45-59 | an important sentence is picked exactly when it fits beside the important ones picked before it, and a lost one does not fit beside all important ones picked |
| Compressor.ImportantSurviveExactly | apps/api/app/context/compressor.py:45-59 | every important sentence is picked exactly when the important ones joined by spaces fit into the room |
| Compressor.KeyFiguresSurviveExactly | apps/api/app/context/compressor.py:37-65 | a compressed candidate is made of the kept sentences, and they include every important one exactly when the important ones together have at most max(96, 3 * target) characters |
| Compressor.ImportantSentenceCanBeLost | apps/api/app/context/compressor.py:31-68 | a line of 97 digits before a plain one-letter line: compressed to 32 tokens, only the plain line is left |
| Compressor.SkippedDoesNotFit | apps/api/app/context/compressor.py:54-59 | no skipped sentence with its separator fits beside the final choice |
| Compressor.OutputFits | apps/api/app/context/compressor.py:60-67 | the output is never empty and never longer than the room |
| Compressor.OutputIsExtract | apps/api/app/context/compressor.py:60-65 | the output is whole sentences in document order, or the stripped start of the first one when no sentence fits |
| Compressor.CompressedIsSmaller | apps/api/app/context/compressor.py:66-95 | a result has strictly fewer tokens than the input, at most the target, and keeps type, score, source and protection |
| Compressor.ProvenanceKept | apps/api/app/context/compressor.py:81-86 | a result keeps its provenance, or names its source reference, type before id, when it had none |
| Compressor.LevelTellsHalf | apps/api/app/context/compressor.py:69-71 | a result counts as an extract exactly when it has at least half the tokens of the input, rounded down, and as a summary otherwise |
| Compressor.CompressesExactly | apps/api/app/context/compressor.py:34-68 | exactly when a result is returned; from 32 target tokens on, exactly for oversized non-blank input |
| Compressor.FloorMattersExactly | apps/api/app/context/compressor.py:37-68 | a positive target is enough for every oversized non-blank input exactly from 32 tokens on; for each smaller target some such input is refused |
| Compressor.CompressesWhenAllFits | apps/api/app/context/compressor.py:37-68 | when all sentences fit into the room, a result is returned exactly if their joined length is within three characters a token |
| Compressor.FloorCanOvershoot | apps/api/app/context/compressor.py:37-67 | a two-line text of 96 characters is refused at 31 tokens although one of its sentences takes a single token |
| Compressor.KeepingAllLosesOnlySpace | apps/api/app/context/compressor.py:38-65 | an output that keeps every sentence has lost white space only |
| Manager.ConsiderKeepsSound | apps/api/app/context/manager.py:123-143 | each step of the selection loop keeps the running total right and within budget, alters only what may be altered, and never touches earlier decisions |
| Manager.FillSound | apps/api/app/context/manager.py:119-143 | the same over a whole run of the loop |
| Manager.ProtectedFirst | apps/api/app/context/manager.py:111-131 | while only protected items have been offered, all of them are selected as they are |
| Manager.DecidedByRoom | apps/api/app/context/manager.py:122-143 | over a whole run, what becomes of each item is decided by the room that the selected items before it leave, and a compression gets exactly that room |
| Manager.UnselectedStarved | apps/api/app/context/manager.py:119-143 | for every step of a run, an item not selected did not fit when the loop reached it nor at the end, and if compressible and not blank there were less than 32 tokens of room; with 32 or more, exactly what is refused by this is not selected |
| Build.BuildContext | apps/api/app/context/manager.py:91-237 | a build either fails with the specified error or returns the specified envelope and manifest rows |
| BuildProperties.BuildSucceedsExactly | apps/api/app/context/manager.py:105-115 | a build succeeds exactly when the window has 1024 tokens and affords the larger of 512 and the tokens of the protected candidates |
| BuildProperties.BudgetSafety | apps/api/app/context/manager.py:111-154 | the total is the sum over selected items, fits the input budget and, with output reserve and safety margin, the window, and never exceeds the total before |
| BuildProperties.ManifestConstraints | apps/api/alembic/versions/20260828_0010_context_budget_manager.py:45-48 | three check constraints of the manifest table always hold, and the one on the output reserve exactly for a positive request without a negative provider limit |
| BuildProperties.ProtectedVerbatim | apps/api/app/context/manager.py:113-131 | every protected candidate is selected unaltered |
| BuildProperties.OnlyCompressibleAltered | apps/api/app/context/manager.py:126-143 | only unprotected candidates of compressible types are altered, with strictly fewer tokens and every other field kept |
| BuildProperties.AdmittedWhenReached | apps/api/app/context/manager.py:119-143 | an item that fits when it is reached is selected; with at least 32 tokens of room then, exactly the items that fit and the unprotected compressible non-blank ones are |
| BuildProperties.DecidedExactly | apps/api/app/context/manager.py:119-143 | with the room left by the selected items before it in the order, an item is selected exactly when it fits or, unprotected and compressible, can be compressed to that room; it is compressed exactly when selected without fitting, and then to that room |
| BuildProperties.NoNeedlessRejection | apps/api/app/context/manager.py:122-143 | an item rejected for the budget did not fit into the room when it was reached, which is at least what is left, and a compressible non-blank one found less than 32 tokens of room |
| BuildProperties.RowsExplainRejections | apps/api/app/context/manager.py:197-225 | item rows are in order, name the policy exactly for pruned items and the budget for all other rejected ones, which are never protected |
| BuildProperties.RowsShowItems | apps/api/app/context/manager.py:198-225 | an item row shows the tokens, reason and level of what was selected, or the tokens and level of a candidate that was not |
| BuildProperties.HandedOut | apps/api/app/context/manager.py:145-151 | selected and rejected items are handed out in candidate order, as decided and as they came, and the prompt is the selected contents joined by blank lines |
| BuildProperties.SelectedUnderCap | apps/api/app/context/manager.py:117-143 | a selected unprotected candidate had fewer than cap-many candidates of its type before it |
| BuildProperties.SelectedWithinCaps | apps/api/app/context/manager.py:117-150 | the final selection has at most cap-many unprotected items of each capped type |
| BuildProperties.SelectedDissimilar | apps/api/app/context/manager.py:117-143 | two selected unprotected items came from contents below the redundancy threshold, and so are below it in the prompt if both were selected verbatim |
| BuildProperties.RoomyBuild | apps/api/app/context/manager.py:117-143 | when the candidates together fit the input budget, nothing is compressed and exactly the unpruned ones are selected, verbatim |
| Redundancy.CompressionCanCoincide | apps/api/app/context/manager.py:117-150 | a request whose two unprotected items have similarity 0 and are both selected with the same content, one cut down to the other |
| Redundancy.KeptApartExactly | apps/api/app/context/policy.py:11-67 | over all requests under a policy, unprotected items stay below the redundancy threshold in the prompt exactly when the policy leaves no room for a compressible type beside another item, or the threshold is outside (0, 1] |
| Redundancy.EveryPolicyCanCoincide | apps/api/app/context/policy.py:20-67 | the default policy and those of the three named nodes all leave such room |
| Redundancy.SafeRequests | apps/api/app/context/manager.py:117-143 | under any policy, a request whose candidates fit the input budget or whose unprotected items are of no compressible type keeps its items below the threshold |
| BuildProperties.ManifestCounts | apps/api/app/context/manager.py:145-172 | selected and rejected items together are all candidates, and the protected count is the number of protected candidates |
| BuildProperties.RowTokensAddUp | apps/api/app/context/manager.py:174-225 | the token counts of the selected item rows sum to the manifest's total |
| BuildProperties.ArtifactsDocumentCompressions | apps/api/app/context/manager.py:179-225 | item rows carry type, source reference and score, point to an artifact row exactly for compressed candidates, and that row shows the tokens before and after, the level and a provenance |
| BuildProperties.TruncatedExactly | apps/api/app/context/manager.py:175 | the manifest says not truncated exactly when the selection is the input itself |
| BuildProperties.RenderedExactly | apps/api/app/context/manager.py:151-174 | the exact estimate of the rendered prompt, and exactly when the reported total covers it and when it fits the window beside the output reserve |
| BuildProperties.SeparatorsAreUncounted | apps/api/app/context/manager.py:151-174 | two protected items of three characters: the total says two tokens, the prompt takes three |
| BuildProperties.PromptFits | apps/api/app/context/manager.py:67-71 | with at most 769 candidates, or two thirds of a token of safety margin per separator, the rendered prompt fits the window beside the output reserve |
| BuildProperties.RenderedBound | apps/api/app/context/manager.py:151-174 | the rendered prompt's estimate exceeds the total by at most ceil(2(k-1)/3), exactly that for lengths divisible by three, and fits the window while the safety margin covers it |
| SourceSelector.LastBreakIsLast | apps/api/app/context/source_selector.py:38 | the break searched for is the last one inside the range |
| SourceSelector.WindowEndsAtBreak | apps/api/app/context/source_selector.py:37-40 | inside the text, a window ends with the last paragraph break of its second half, or at full size without one; a rest no longer than the size is one window |
| SourceSelector.WindowsEndAtBreaks | apps/api/app/context/source_selector.py:36-43 | every window cut ends like that |
| SourceSelector.CutWindows | apps/api/app/context/source_selector.py:34-43 | the scan terminates and cuts the specified windows |
| SourceSelector.WindowsTile | apps/api/app/context/source_selector.py:34-43 | the windows follow each other without gaps and their concatenation is the text |
| SourceSelector.WindowSizes | apps/api/app/context/source_selector.py:36-43 | no window is empty or longer than the size, and all but the last exceed half of it |
| SourceSelector.WindowCount | apps/api/app/context/source_selector.py:36-43 | fewer than 1 + 2 * length / size windows are cut |
| SourceSelector.ShareInRange | apps/api/app/context/source_selector.py:45 | the share of a query is the number of its terms that occur over the number of its terms, lies in [0,1] and is 1 exactly when they all occur |
| SourceSelector.RelevanceIsBestShare | apps/api/app/context/source_selector.py:45 | relevance is the best share over the queries, 0 without any |
| SourceSelector.QueriesAre | apps/api/app/context/source_selector.py:44 | there is a query for each objective that is not blank, and no other |
| SourceSelector.TakenByRelevance | apps/api/app/context/source_selector.py:46-62 | each part taken has the largest (0.7 relevance - 0.3 largest overlap with those taken before, -position) among those not taken before |
| SourceSelector.WindowsTakenByRelevance | apps/api/app/context/source_selector.py:44-62 | so do the windows of a text, for the queries of its objectives |
| SourceSelector.RankSourceWindows | apps/api/app/context/source_selector.py:25-68 | fails exactly for non-positive sizes and otherwise reports the greedy winners among the windows |
| SourceSelector.RankingIsProper | apps/api/app/context/source_selector.py:46-68 | the ranking has min(limit, n) different windows, exact slices with scores falling strictly inside (0,1], and all windows when the limit allows |
| SourceSelector.RankedAsTaken | apps/api/app/context/source_selector.py:63-68 | the windows reported are the winners in the order taken, with scores falling from 1 by equal steps |
| BlockSelector.SplitBlocks | apps/api/app/context/source_selector.py:92-105 | the scan over the matches yields the specified blocks |
| BlockSelector.BlocksAndSeparatorsTile | apps/api/app/context/source_selector.py:96-105 | blocks and separators, interleaved by position, cover the text without gap or overlap |
| BlockSelector.BlocksRebuildText | apps/api/app/context/source_selector.py:96-105 | the slices of blocks and separators, put together, are the text |
| BlockSelector.BlocksAreMaximal | apps/api/app/context/source_selector.py:96-105 | no block has a boundary inside and between consecutive blocks there is one |
| BlockSelector.BlockHeading | apps/api/app/context/source_selector.py:71-81 | the backward search returns the specified heading |
| BlockSelector.HeadingExactly | apps/api/app/context/source_selector.py:71-81 | the heading is the block's own first line when that is one, else the last heading among the three blocks before, else none, stripped and cut off at 80 characters |
| BlockSelector.HeadingKeepsPromiseExactly | apps/api/app/context/source_selector.py:71-81 | the nearest preceding heading is returned exactly when the block has its own, none precedes, or one is among the last three blocks |
| BlockSelector.HeadingCanBeMissed | apps/api/app/context/source_selector.py:71-81 | for every heading test that accepts "# Title" and rejects "One. Two": a heading four blocks before is described as the block's heading and not returned |
| BlockSelector.Expand | apps/api/app/context/source_selector.py:180-188 | the expansion loops yield the clipped neighbourhood of the winners |
| BlockSelector.AroundMembers | apps/api/app/context/source_selector.py:180-188 | a position is in the neighbourhood exactly when some winner is within the distance |
| BlockSelector.SelectRelevantBlocks | apps/api/app/context/source_selector.py:119-201 | fails exactly for a non-positive limit and otherwise reports, for each position, slice, offsets, relevance and heading |
| BlockSelector.BlocksTakenByRelevance | apps/api/app/context/source_selector.py:156-178 | each block taken has the largest (0.7 relevance - 0.3 largest overlap with those taken before, -position) among those not taken before |
| BlockSelector.ReportedWith | apps/api/app/context/source_selector.py:137-201 | each block is reported with its relevance (1 without queries), its heading and its offsets |
| BlockSelector.PositionsAreNeighbourhoods | apps/api/app/context/source_selector.py:137-201 | blocks come in strictly increasing text order; with a query they are the winners' neighbourhoods, without one the first blocks |
| BlockSelector.SelectionIsProper | apps/api/app/context/source_selector.py:92-201 | the blocks returned are non-empty exact slices of the text that do not overlap and come in text order |
| BlockSelector.PositionCount | apps/api/app/context/source_selector.py:171-200 | at most min(n, limit * (2e+1)) blocks, min(limit, n) without neighbours, and all when the limit allows |
| BlockSelector.NeighboursExceedLimit | apps/api/app/context/source_selector.py:180-200 | with neighbours the limit is exceeded exactly when it is below the number of blocks |
| Coverage.CountDimensions | scripts/analyze_historical_baseline_regression.py:271-285 | the single pass keeps, per dimension, the number of accepted rows and the number of distinct owners |
| Coverage.ScoreItem | scripts/analyze_historical_baseline_regression.py:300-335 | the loop over requirements computes the mean requirement score from its definition |
| Coverage.ReplayCoverage | scripts/analyze_historical_baseline_regression.py:225-366 | the replay computes the weighted mean of the item coverages over the plan items of the version |
| Coverage.DecimalRoundTrip | scripts/analyze_historical_baseline_regression.py:306 | the numeral in a dimension key has digits only and no leading zero, and reads back as the requirement's number |
| Coverage.DimensionKeysDistinct | scripts/analyze_historical_baseline_regression.py:306 | different requirements of a question have different dimension keys |
| Coverage.MetExactly | scripts/analyze_historical_baseline_regression.py:306-319 | a requirement scores 1 exactly with evidence from enough distinct owners, 0 without evidence, one half otherwise |
| Coverage.RequirementExactly | scripts/analyze_historical_baseline_regression.py:256-319 | on the rows alone: a requirement scores 1 exactly when rows of the required number of different owners count for its dimension (two with a marker or a risky claim), and 0 exactly when no row counts for it |
| Coverage.OneOwnerCountsOnce | scripts/analyze_historical_baseline_regression.py:256-319 | when all sources of a dimension are listed under one owner key, a requirement that needs two owners scores at most one half |
| Coverage.TwoOwnersSuffice | scripts/analyze_historical_baseline_regression.py:256-319 | two rows whose sources have different owners give every requirement the score 1 |
| Coverage.ItemIsMean | scripts/analyze_historical_baseline_regression.py:333-335 | an item's coverage times its requirements is the number of those scoring 1 plus half the number of those scoring one half |
| Coverage.CoverageIsWeightedMean | scripts/analyze_historical_baseline_regression.py:336-349 | coverage is the mean of the item coverages weighted by four less the priority, 1 when absent or zero |
| Coverage.FilteredAre | scripts/analyze_historical_baseline_regression.py:291-295 | the plan items replayed are those of the version, those without one, or all when no version is given |
| Coverage.CoverageMonotone | scripts/analyze_historical_baseline_regression.py:274-349 | adding evidence anywhere never lowers coverage and a claim becoming high risk never raises it |
| Coverage.CoverageIgnoresOrder | scripts/analyze_historical_baseline_regression.py:271-349 | coverage depends only on which evidence rows there are, not on their order or repetition |
| Coverage.CoverageRange | scripts/analyze_historical_baseline_regression.py:297-349 | for priorities 1 to 3, absent or zero, coverage is in [0,1] and 1 exactly when every item has requirements and all are met |
| CoverageLoss.BlockingCauses | scripts/analyze_phase15_conversion_funnel.py:401-412 | lists each unmet criterion once |
| CoverageLoss.ClosedExactly | scripts/analyze_phase15_conversion_funnel.py:378-412 | a requirement has no blocking cause exactly when its effective state is closed |
| CoverageLoss.CausesAndState | scripts/analyze_phase15_conversion_funnel.py:378-412 | which criterion each cause stands for, and when a requirement is closed or open |
| CoverageLoss.ShortfallExactly | scripts/analyze_phase15_conversion_funnel.py:715-716 | a shortfall is what coverage lacks to the required coverage, 0 when none is required or it is reached |
| CoverageLoss.CollectLoss | scripts/analyze_phase15_conversion_funnel.py:698-718 | the pass collects the dimensions, the causes of each blocked one and its worst shortfall, the number of uncovered requirements and how many each cause blocks |
| CoverageLoss.WorstIsMaximum | scripts/analyze_phase15_conversion_funnel.py:715-717 | the shortfall kept for a dimension is the largest among its blocked requirements |
| CoverageLoss.SplitLoss | scripts/analyze_phase15_conversion_funnel.py:696-745 | total and impacts are the sums over the blocked dimensions, in whatever order dimensions and causes are visited |
| CoverageLoss.LossConserved | scripts/analyze_phase15_conversion_funnel.py:721-729 | the impacts of the causes sum to the aggregate shortfall |
| CoverageLoss.GapIsMean | scripts/analyze_phase15_conversion_funnel.py:719-726 | the aggregate shortfall times the number of dimensions is the sum of the worst shortfalls |
| CoverageLoss.CausesShareEqually | scripts/analyze_phase15_conversion_funnel.py:721-729 | when all requirements belong to one dimension, each of its causes has an equal share of the shortfall and no other cause has any |
| CoverageLoss.LossInRange | scripts/analyze_phase15_conversion_funnel.py:719-726 | for coverages in [0,1] the aggregate shortfall lies in [0,1] |
| CoverageLoss.UnlistedHasNoImpact | scripts/analyze_phase15_conversion_funnel.py:709-745 | a cause that blocks no requirement has no impact, so the causes listed account for the whole shortfall |
| CoverageLoss.CausesCoverUncovered | scripts/analyze_phase15_conversion_funnel.py:709-714 | no cause blocks more requirements than are uncovered, and together the causes block at least as many |
| CoverageLoss.LossIgnoresRepetition | scripts/analyze_phase15_conversion_funnel.py:700-718 | repeating or reordering requirement rows changes neither the shortfall nor any impact |
| Funnel.BarIsStrictest | scripts/analyze_phase15_conversion_funnel.py:444-459 | a dimension's verification bar is the larger of 1 and the most sources any of its requirements demands |
| Funnel.GroupByClaim | scripts/analyze_phase15_conversion_funnel.py:432-442 | the pass collects each claim's distinct owners, and counts evidence exactly for claims that have owners |
| Funnel.BuildRunMetrics | scripts/analyze_phase15_conversion_funnel.py:429-481 | the loops compute the funnel counts, satisfied requirements included, from their definitions |
| Funnel.MetricsExactly | scripts/analyze_phase15_conversion_funnel.py:429-481 | each count of the funnel is the number of rows with the property it is named after |
| Funnel.ClaimFlagsExactly | scripts/analyze_phase15_conversion_funnel.py:453-462 | a claim is supported by an accepted row that names it, and verified when supported with as many owners as every requirement of its dimension demands |
| Funnel.ClaimOwnersExactly | scripts/analyze_phase15_conversion_funnel.py:427-442 | the owners behind a claim are the owner keys of the sources of the accepted rows that name it |
| Funnel.OneOwnerCountsOnce | scripts/analyze_phase15_conversion_funnel.py:427-442 | rows whose sources share an owner key count as one owner |
| Funnel.SatisfiedOrUncovered | scripts/analyze_phase15_conversion_funnel.py:464-465 | the satisfied requirements of the funnel and the uncovered ones of the loss analysis are together all requirements |
| Funnel.FunnelNests | scripts/analyze_phase15_conversion_funnel.py:453-478 | verified <= supported <= accepted with claim <= accepted <= candidate, the second step for unique non-empty claim ids |
| Funnel.SingleOrMulti | scripts/analyze_phase15_conversion_funnel.py:453-462 | single-source and multi-source claims together are the supported ones |
| Funnel.NestsExactly | scripts/analyze_phase15_conversion_funnel.py:453-467 | unique non-empty claim ids are exactly the condition under which supported claims never outnumber accepted evidence with a claim, whatever the evidence |
| Funnel.AnalyzeDimensionMatrix | scripts/analyze_phase15_conversion_funnel.py:753-823 | the matrix has a row for exactly the dimensions of evidence, supported claims and requirements, with the right counts, gap state, coverage and a most frequent loss cause |
| Funnel.RowExactly | scripts/analyze_phase15_conversion_funnel.py:773-789 | a row counts the evidence of the claims of its dimension, the accepted part of it, and its supported and verified claims |
| Funnel.EvidenceKeysExactly | scripts/analyze_phase15_conversion_funnel.py:773-775 | an evidence row belongs to the dimension of its claim, to "(none)" without a claim or key |
| Funnel.GapColumnsAgree | scripts/analyze_phase15_conversion_funnel.py:791-819 | a dimension is shown as closed (open) exactly when it has requirements and each is closed (open), and as closed exactly when it has requirements and shows no main loss |
| Funnel.CoverageShownIsBest | scripts/analyze_phase15_conversion_funnel.py:795 | the coverage shown is the largest among the dimension's requirements, and at least 0 |
| Funnel.ColumnsSumToFunnel | scripts/analyze_phase15_conversion_funnel.py:773-816 | the candidate, accepted and supported columns of the matrix returned sum to the funnel's totals and its verified column to the matrix's verified claims |
| Funnel.VerifiedAgreeExactly | scripts/analyze_phase15_conversion_funnel.py:454-789 | funnel and matrix agree on verified claims exactly when no keyless claim's owner count lies between the two bars |
| Funnel.VerifiedColumnSums | scripts/analyze_phase15_conversion_funnel.py:454-789 | when every claim has a dimension key, the verified column of the matrix returned sums to the verified claims of the funnel |
| Funnel.VerifiedCanDisagree | scripts/analyze_phase15_conversion_funnel.py:454-789 | a claim with an empty key and one owner, beside an empty dimension key that demands two sources, is verified for the matrix and not for the funnel |
| PerformanceGrader.IndexSize | evals/graders/performance_grader.py:56-60 | the index is as long as the list exactly when no (case, repetition) repeats |
| PerformanceGrader.PairUp | evals/graders/performance_grader.py:56-66 | exactly which defect of the pair of arms is reported |
| PerformanceGrader.ComputeDeltas | evals/graders/performance_grader.py:89-96 | each delta is the mean paired difference of one case, in whatever order its repeats are summed |
| PerformanceGrader.SingleRepeatDelta | evals/graders/performance_grader.py:86-96 | with one repeat a case's delta of each of the four metrics is the candidate's value less the baseline's |
| PerformanceGrader.CaseDeltaIsMean | evals/graders/performance_grader.py:89-96 | a case's delta times its repeats is the sum of their paired differences |
| PerformanceGrader.CompareSamples | evals/graders/performance_grader.py:52-125 | a report is produced exactly for comparable arms, with regressions, medians and percentiles, and mean and interval of all four metrics |
| PerformanceGrader.MedianHalves | evals/graders/performance_grader.py:74-82 | at least half of the samples are at or below a reported median and at least half at or above |
| PerformanceGrader.MedianExactly | evals/graders/performance_grader.py:74-82 | a median is the middle of the two samples that halve the list, which are one for an odd length |
| PerformanceGrader.CostsExactly | evals/graders/performance_grader.py:74-82 | which samples each figure of an arm is taken from |
| PerformanceGrader.RegressionsExactly | evals/graders/performance_grader.py:67-72 | the regressions are the pairs in which support precision, technical or quality success fell |
| PerformanceGrader.MeanWithinDeltas | evals/graders/performance_grader.py:103 | the mean paired difference lies within any bounds of the case deltas |
| PerformanceGrader.TotalAdds | evals/graders/performance_grader.py:99-103 | a mean times the length is the total, and totals add up over lists put together |
| PerformanceGrader.DrawMeanIsMean | evals/graders/performance_grader.py:98-101 | a resampled mean is the mean of the deltas drawn |
| PerformanceGrader.IntervalFromTwoCases | evals/graders/performance_grader.py:102-106 | an interval is reported exactly for two cases or more |
| PerformanceGrader.IntervalWithinDeltas | evals/graders/performance_grader.py:97-106 | for every outcome of the draws the interval is ordered and lies within any bounds of the case deltas |
| PerformanceGrader.NoRegressionNoNegativeInterval | evals/graders/performance_grader.py:67-106 | without quality regressions and with two cases the mean and the lower end of each quality metric are at least 0, whatever was drawn |
| PerformanceGrader.IntervalCoversMeans | evals/graders/performance_grader.py:98-105 | of the 2000 resampled means at least 1951 reach the lower end and at least 50 do not exceed it, at least 1950 do not exceed the upper end and at least 51 reach it |
| PerformanceGrader.P95IndexInRange | evals/graders/performance_grader.py:79 | the percentile index is always in range and the least that covers 95 percent |
| PerformanceGrader.P95Covers | evals/graders/performance_grader.py:76-79 | the percentile is a sample, at least 95 percent of the samples are at or below it and more than 5 percent at or above |
| EraSampling.StratifyByEra | scripts/analyze_historical_baseline_regression.py:1348-1364 | the backward scan returns, in chronological order, exactly the recent rows with fewer recent rows after them than there is room |
| EraSampling.ListingInOrder | scripts/analyze_historical_baseline_regression.py:1353-1364 | the sample lists exactly the rows kept, in chronological order |
| EraSampling.EraCapHolds | scripts/analyze_historical_baseline_regression.py:1355-1361 | no era is kept more often than its cap |
| EraSampling.EraSuffix | scripts/analyze_historical_baseline_regression.py:1355-1361 | within an era the sample is a suffix: with a row all later rows of its era are kept |
| EraSampling.DroppedExactly | scripts/analyze_historical_baseline_regression.py:1355-1363 | a row is dropped exactly when the rows kept after it fill its era's cap or the whole room |
| EraSampling.SampleSize | scripts/analyze_historical_baseline_regression.py:1355-1364 | the sample has min(room, recent rows) rows, and respects the total cap exactly for a cap of at least one, an empty input or an era cap below one |
| Identifiers.Uuid7 | apps/api/app/domain/identifiers.py:10-20 | the number built shows the low 48 bits of the clock, version 7, variant 0b10, the top 12 and the low 62 random bits in their fields |
| Identifiers.FieldsDetermine | apps/api/app/domain/identifiers.py:13-20 | no other 128-bit number shows these fields |
| Identifiers.FieldsReadBack | apps/api/app/domain/identifiers.py:13-20 | the clock's low 48 bits, version 7, variant 0b10 and the 12 and 62 random bits can be read back |
| Identifiers.PartsDisjoint | apps/api/app/domain/identifiers.py:15-19 | the parts share no bit, so or-ing them adds them |
| Identifiers.RebuiltFromFields | apps/api/app/domain/identifiers.py:15-19 | every identifier of this version and variant is rebuilt from its own fields |
| Identifiers.LaterIsLarger | apps/api/app/domain/identifiers.py:13-20 | a larger 48-bit timestamp gives a larger identifier whatever the random bits |
| Identifiers.CoincideExactly | apps/api/app/domain/identifiers.py:13-20 | two identifiers are equal exactly when timestamps and the 74 used random bits agree |

## Left out

- Database sessions, queries, manifest persistence, hashes, manifest and artifact ids, and the error raised when a manifest cannot be stored: input and output only. Only the manifest table's check constraints are stated.
- Floating-point rounding and the final `round(...)` calls: numbers are reals, so `0.10`, `0.70`, `0.95` and `1e-9` are exact.
- The regular expressions of the tokenizer, of important sentences, of headings and of block boundaries, and case folding: parameters, as listed above.
- The per-question evidence counts of the coverage replay and the counts it reports beside the score: they do not enter the score.
- Rows of the replay and of the funnel with an absent question id, dimension key, type or status: absent strings are taken as already replaced by the empty one; only fields whose absence changes a branch are optional.
- Compressor.CompressesExactly: below 32 target tokens its condition names the length of the chosen text, because which sentences share 96 characters depends on the whole greedy choice; Compressor.CompressesWhenAllFits and Compressor.FloorMattersExactly give the conditions that do not.
- Build.BuildContext: omits hashes, random ids and the run, node and model names that are copied into the manifest.
- Funnel.AnalyzeDimensionMatrix: does not order its rows by coverage and evidence, and leaves open which of several equally frequent causes is the main loss, because that depends on insertion order.
- The usage, storage and coverage figures that the funnel copies from the run card, and the shares and texts of the loss report.
- PerformanceGrader.CompareSamples: leaves open the order in which the report lists cases and regressions, and omits its fixed texts.
- The type checks of performance samples.
- Identifiers: the clock is taken as an integer below 2^128 and the random number as 80 given bits.
- Selection by `select_aux_runs`, case and branch deciders, the adaptive scheduler, report rendering, command-line handling, the web interface and the migrations themselves.
- Coverage.CoverageRange: states the range for the priorities 1 to 3 that plans validate (`apps/api/app/domain/planning.py:27`), because larger priorities give weights of zero or below.
