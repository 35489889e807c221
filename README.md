# Hybrid retrieval re-ranking, modelled in Dafny

This project models the candidate re-ranking pipeline of the talent-search
service. Given a persona, the pipeline does five things:

1. It runs a vector search and a keyword search.
2. It fuses the two ranked lists with `blend_scores`. Vector scores are
   max-normalised. Keyword positions become reciprocal ranks. The blend is
   `alpha*v + (1-alpha)*k`, sorted by descending score.
3. It diversifies the top twenty with maximal marginal relevance (`mmr`).
   This is a greedy loop that trades relevance against cosine similarity to
   what is already selected.
4. It truncates the result to twelve.
5. It asks a language model to judge candidates in consecutive batches.
   Each answer is validated against the `JudgeOutput` schema. A failure is
   replaced by a fallback judgement with score 0.

The modules follow the source files:

| module | file | what it holds |
|---|---|---|
| `Common` | `common.dfy` | Identifiers (`str` or `int`), documents with an optional `score`, and the Python list and dict idioms the code relies on (`s.index`, `s.remove`, `s[:n]` with negative `n`, dict comprehensions where the last key wins). |
| `MaxNorm` | `max_norm.dfy` | The in-place division of a score dict by its maximum. Both `blend_scores` and `mmr` perform it. |
| `Sorting` | `sorting.dfy` | `list.sort(key=..., reverse=...)`, as an insertion sort on an array. |
| `Scoring` | `scoring.dfy` | `blend_scores`. |
| `Mmr` | `mmr.dfy` | `cosine_similarity` and `mmr`. |
| `JudgeSchema` | `judge_schema.dfy` | `Evidence` and `JudgeOutput`, strict validation of a JSON value, `model_dump`, and their round trip. |
| `Judge` | `judge.dfy` | The candidate text of the prompt, `judge_candidate` with its two fallbacks, and `judge_parallel` over batches. |
| `Retrieve` | `retrieve.dfy` | `hybrid_retrieve`. Each external call is an outcome parameter: it returned a value or raised. |

The imperative parts of the source are imperative methods here:

- the normalisation loop;
- the blending loop over the set of identifiers;
- the in-place sort;
- the two nested loops of `mmr`;
- the batch loop of `judge_parallel`;
- the step-by-step state of `hybrid_retrieve`.

Each method is proved against a specification function or predicate, and the
source's promises are proved as lemmas about that function.

Some inputs are parameters rather than modelled code:

- `math.sqrt` is the parameter `sqrt`.
- Python's `str` on a candidate field is the parameter `render`.
- The model call is the parameter `llm`, and the JSON parser is `parseJson`.
- The database and the language-model adapters appear only as the outcomes
  passed to `HybridRetrieve`.

## Model

| member | source | states |
|---|---|---|
| Common.IndexOf | app/utils/mmr.py:68 | `s.index(x)` is the first position holding `x`. It is the length of `s` exactly when `x` is absent; Python raises `ValueError` there instead, a case that cannot arise at mmr.py:68, since every sorted document carries a selected id. |
| Common.Str | app/utils/scoring.py:13 | Python's `str` of an identifier: a string id as it is, an integer id in decimal with a leading `-` when negative. It is the form the blend compares ids in (scoring.py lines 13, 21 and 35-37). |
| Common.NatToDecimalValue | app/utils/scoring.py:13 | The decimal string `str` gives a non-negative integer denotes that integer. |
| Common.StrIntIdInjective | app/utils/scoring.py:35-37 | Two integer ids with the same string form are the same integer, so comparing canonical ids never merges distinct integer ids. |
| Common.RemoveFirst | app/utils/mmr.py:64 | `s.remove(x)` is one shorter and keeps only elements of `s`. |
| Common.RemoveFirstCutsIndex | app/utils/mmr.py:64 | `s.remove(x)` cuts out exactly the entry at `s.index(x)`. |
| Common.Take | app/services/retrieve.py:124 | `s[:n]` is a prefix of length `min(n, len(s))`. A negative `n` counts from the end. |
| Common.DictFromLastWins | app/utils/mmr.py:29 | A dict comprehension has one key per distinct key of the input. Each key holds the value of its last occurrence. |
| Common.TakeKeepsDistinctIds | app/services/retrieve.py:64 | A prefix keeps the documents in place and keeps their identifiers distinct. |
| MaxNorm.MaxOf | app/utils/scoring.py:15 | `max(d.values())` is a value of the dict, and no value exceeds it. |
| MaxNorm.Normalized | app/utils/scoring.py:14-18 | The score dict after the normalisation step: the same keys, unchanged when empty or when the maximum is not positive, otherwise every value divided by the maximum. `mmr` performs the same step at mmr.py lines 30-33. |
| MaxNorm.MaxOfUnique | app/utils/mmr.py:30 | Any value with those two properties is the maximum. |
| MaxNorm.NormalizedTopIsOne | app/utils/scoring.py:14-18 | After division by a positive maximum the top entry is exactly 1.0. No entry exceeds 1.0, and non-negative entries stay non-negative. |
| MaxNorm.NormalizedNonPositiveKeeps | app/utils/mmr.py:30-33 | A maximum that is not positive leaves the scores unchanged. |
| MaxNorm.MaxValue | app/utils/scoring.py:15 | The scan over the keys returns the maximum. |
| MaxNorm.DivideAll | app/utils/scoring.py:17-18 | The in-place loop divides every value and keeps the keys. |
| MaxNorm.NormalizeByMax | app/utils/mmr.py:30-33 | The whole in-place step yields `Normalized(m)`. |
| Sorting.Insert | app/utils/scoring.py:46 | One insertion step extends the sorted prefix by one entry. The array stays a permutation. |
| Sorting.SortBy | app/utils/scoring.py:46 | The in-place sort leaves the array sorted by the key, in the direction asked, and a permutation of what it was. |
| Sorting.SortSeq | app/utils/mmr.py:68 | `list.sort` on a list gives a sorted permutation of it. |
| Sorting.AdjacentToSorted | app/utils/scoring.py:46 | Order checked on neighbours holds for every pair. |
| Scoring.VecScoreIsLastOccurrence | app/utils/scoring.py:13 | A repeated vector id takes the score of one of its occurrences, the last one. |
| Scoring.VecScoreMap | app/utils/scoring.py:13 | `vec_scores` before normalisation: the dict from each canonical vector id to its raw score, built in list order. |
| Scoring.KwScoreMap | app/utils/scoring.py:21 | `kw_scores`: the dict from each canonical keyword id to the reciprocal of its rank, built in list order. |
| Scoring.KwScoreIsReciprocalRank | app/utils/scoring.py:21 | A keyword id scores `1/(i+1)` for one of its positions, whatever its own score. |
| Scoring.ScoreMapKeys | app/utils/scoring.py:13-21 | The keys of both score dicts are exactly the canonical ids of each list. |
| Scoring.VecTopContributesOne | app/utils/scoring.py:14-18 | With a positive maximum, each vector score is divided by it. Some vector result contributes exactly 1.0, and none contributes more. |
| Scoring.VecNonPositiveKept | app/utils/scoring.py:16 | With no positive vector score, the raw scores are kept. |
| Scoring.AllIds | app/utils/scoring.py:24 | `all_ids`: the union of the keys of the two score dicts. |
| Scoring.Mix | app/utils/scoring.py:31 | `blended_score = alpha * vec_score + (1 - alpha) * kw_score`. |
| Scoring.AllIdsAreUnion | app/utils/scoring.py:24 | `all_ids` is the set of canonical ids of either list. |
| Scoring.FirstWithStrId | app/utils/scoring.py:35-37 | The `next(...)` search finds a document with that id, or `None` exactly when there is none. |
| Scoring.SourceDoc | app/utils/scoring.py:35-39 | Every id of the union has a source document, so the `if doc:` guard always holds. |
| Scoring.BlendedDoc | app/utils/scoring.py:27-43 | The entry the loop emits for one id: a copy of its source document whose `score` is the blended score. |
| Scoring.IsBlendOf | app/utils/scoring.py:24-46 | What `blend_scores` returns: one blended entry per canonical id of the union, sorted by non-increasing score, ties in any order. |
| Scoring.PartialBlendExtend | app/utils/scoring.py:27-43 | Each loop iteration appends the blended copy for one new id. Ids done so far appear once each. |
| Scoring.PartialBlendComplete | app/utils/scoring.py:24-43 | After the loop, one entry exists per id of the union. |
| Scoring.PermutationKeepsEntries | app/utils/scoring.py:46 | Sorting does not change which entries there are. |
| Scoring.BlendScores | app/utils/scoring.py:3-48 | The method yields sorted blend entries: one per distinct canonical id of the union, each the blended copy of its source, ordered by non-increasing score. |
| Scoring.BlendEmptyIff | app/utils/scoring.py:24-43 | The blend is empty exactly when both inputs are empty. |
| Scoring.BlendEntryScoreIs | app/utils/scoring.py:27-31 | Each output score is `alpha*vec + (1-alpha)*kw` on the normalised, reciprocal-rank dicts. |
| Scoring.BlendEntryIsCopy | app/utils/scoring.py:35-43 | Each output entry is the first vector document with its id, otherwise the first keyword document, with only `score` changed. |
| Scoring.MixKeywordOnlyDecreases | app/utils/scoring.py:21-31 | Without vector scores, a later keyword rank blends strictly lower when `alpha < 1`. |
| Scoring.KeywordOnlyKeepsRankOrder | app/utils/scoring.py:21-46 | Keyword results alone, with distinct ids, come back in their own order. Each carries `(1-alpha)/(i+1)`. |
| Mmr.DotOverZip | app/utils/mmr.py:6 | The dot product runs over the `zip` of the vectors, stopping at the shorter one. |
| Mmr.CosineSimilarity | app/utils/mmr.py:4-10 | `cosine_similarity`: 0 when the product of the two magnitudes is 0, otherwise the dot product over that product. Its properties are the lemmas of the next rows. |
| Mmr.DotSymmetric | app/utils/mmr.py:6 | The dot product is symmetric. |
| Mmr.SumSqNonNegative | app/utils/mmr.py:7 | A sum of squares is never negative. |
| Mmr.CosineSymmetric | app/utils/mmr.py:4-10 | The cosine similarity is symmetric in its two vectors. |
| Mmr.CosineOfZeroVector | app/utils/mmr.py:7-9 | A zero vector gives similarity 0 in either argument position. |
| Mmr.CosineSelfIsOne | app/utils/mmr.py:4-10 | A non-zero vector has similarity 1.0 with itself, given an exact square root. |
| Mmr.MaxOfSeq | app/utils/mmr.py:53 | `max(sims)` is an element of the list, and no element exceeds it. |
| Mmr.FirstArgMax | app/utils/mmr.py:62 | `max(mmr_scores, key=...)` over an insertion-ordered dict is the first position holding the maximum. |
| Mmr.Eligible | app/utils/mmr.py:24 | `doc_ids_with_vectors` holds exactly the raw ids that are keys of `vectors`. Every one has a vector. |
| Mmr.EligibleNoDuplicates | app/utils/mmr.py:24 | With distinct input ids, the eligible ids are distinct. |
| Mmr.EligibleHead | app/utils/mmr.py:36-41 | The first pick is the id of the first document, in input order, that has a vector. |
| Mmr.UnselectedMembers | app/utils/mmr.py:36-64 | The remaining ids are the eligible ids not yet selected. |
| Mmr.UnselectedRemove | app/utils/mmr.py:63-64 | Removing the pick from the remaining ids is the same as selecting it. |
| Mmr.GreedyFrom | app/utils/mmr.py:43-64 | The `while` loop as a recursion. The selection only grows, never past `k` (or what was already selected), and holds only ids it started with or took from the candidates. |
| Mmr.Pick | app/utils/mmr.py:62 | `best_id` is one of the remaining candidates. |
| Mmr.MaxSim | app/utils/mmr.py:49-53 | `max_sim` is 0 with nothing selected. Otherwise it is the largest similarity to a selected id. |
| Mmr.FirstArgMaxIsFirstBest | app/utils/mmr.py:62 | The pick scores at least as high as every candidate, and strictly higher than every earlier one. |
| Mmr.PickUnique | app/utils/mmr.py:62 | Two picks by that rule after the same selection are the same id. |
| Mmr.GreedySelectionUnique | app/utils/mmr.py:39-64 | Two selections that both follow the rule are equal. |
| Mmr.GreedyIsGreedySelection | app/utils/mmr.py:39-64 | The loop's selection follows the rule: the first eligible id, then greedy picks, up to `k` (at least one) or until the candidates run out. |
| Mmr.GreedyDistinctEligible | app/utils/mmr.py:39-64 | The selection is duplicate-free and drawn from the eligible ids. |
| Mmr.GreedyRoomySelectsAll | app/utils/mmr.py:43 | With `k` at least the number of eligible ids, every eligible id is selected. |
| Mmr.Relevance | app/utils/mmr.py:29-33 | `scores` after normalisation: each document's score divided by the largest score when that is positive. |
| Mmr.MmrScore | app/utils/mmr.py:55 | `lambda_val * relevance - (1 - lambda_val) * max_sim`. |
| Mmr.MmrScorer | app/utils/mmr.py:44-56 | The marginal relevance of a candidate after a selection: its relevance, 0 when absent, against its largest similarity to a selected id. |
| Mmr.MmrSelection | app/utils/mmr.py:35-64 | `selected_ids` when the loop ends: the first eligible id, then the loop over the remaining eligible ids with the marginal-relevance scorer. |
| Mmr.RelevanceIsScoreOverTop | app/utils/mmr.py:29-33 | Relevance is each document's score divided by the top score of all documents, including those without a vector, when that top is positive. Otherwise it is the score itself. |
| Mmr.MmrSelectionIsGreedy | app/utils/mmr.py:35-64 | `selected_ids` follows the selection rule for `lambda*rel - (1-lambda)*max_sim`. It is duplicate-free, eligible, and complete when `k` is large. |
| Mmr.GreedySelectionIsMmrSelection | app/utils/mmr.py:43-64 | Any selection that follows the rule is the loop's selection. |
| Mmr.ScoreCandidates | app/utils/mmr.py:44-56 | The inner loop computes the marginal relevance of every remaining candidate. |
| Mmr.SelectIds | app/utils/mmr.py:35-64 | The `while` loop ends with the specified selection. |
| Mmr.Picked | app/utils/mmr.py:67 | The filter keeps exactly the input documents whose id was selected. |
| Mmr.SelectionRank | app/utils/mmr.py:68 | The sort key `selected_ids.index(doc['id'])`. |
| Mmr.SortedPickIsSelection | app/utils/mmr.py:67-68 | Sorting the kept documents by selection position lists, for each selected id in turn, the document carrying it. |
| Mmr.Dedup | app/utils/mmr.py:36 | The candidate list taken once per id: no repeats, the same ids as the eligible list, and the same first id. |
| Mmr.DedupOfDistinct | app/utils/mmr.py:36 | A list without repeats is unchanged, so on distinct ids the corrected candidates are the source's. |
| Mmr.DiversifiedDocs | app/utils/mmr.py:39-70 | The result `mmr` is meant to return, for any input: the loop run over the eligible ids taken once each, then the document of each selected id, in selection order. It holds at least one and, for `k >= 1`, at most `k` documents, each an input document with a vector, and no two share an id, whatever the input. The first carries the first id that has a vector. |
| Mmr.MmrOutcomeOfDistinct | app/utils/mmr.py:39-70 | With distinct input ids the corrected result is the document of each id of `selected_ids`, in selection order. |
| Mmr.RepeatedIdExceedsK | app/utils/mmr.py:67 | With two documents sharing an id and `k = 1`, the loop selects one id but the filter keeps both documents, while the intended result holds one. |
| Mmr.RepeatedIdSelectedTwice | app/utils/mmr.py:36-64 | With ids `a, a, b`, `k = 2` and `a` scoring no lower than `b` after `a`, the loop selects `a` twice and the filter returns the two `a` documents, while the intended result is the `a` and the `b` document. |
| Mmr.Mmr | app/utils/mmr.py:12-70 | The method returns `MmrOutcome`: `[]` for no documents or no vectors, `documents[:k]` when none has a vector, a `KeyError` for a missing score, and otherwise the selected documents in selection order. |
| Mmr.MmrOutcome | app/utils/mmr.py:12-70 | What `mmr` returns, in the order of its early returns: `[]`, then `documents[:k]`, then the `KeyError` of a missing score, then the diversified selection over the distinct eligible ids. A result holds input documents, at most `k` of them for `k >= 1`. |
| Mmr.MmrOutcomeSelected | app/utils/mmr.py:39-70 | With eligible documents, the result has `min(k, #eligible)` entries for `k >= 1` and one for `k <= 0`. Entry j is the original input document of the j-th selected id. The first entry is the first document with a vector. |
| Mmr.MmrOutcomeWithin | app/utils/mmr.py:20-70 | For input documents with distinct ids, a successful result holds input documents with distinct ids, at most `k` of them for `k >= 1`. It fails exactly when a document has a vector and some score is missing. |
| Mmr.IntIdsNeverEligible | app/utils/mmr.py:24-26 | Integer ids never match the string keys of `vectors`, so such a list comes back as `documents[:k]`. |
| JudgeSchema.ValidateJudgeOutput | app/schemas/judge.py:16-23 | A validated record has `0 <= fit_score <= 100`. |
| JudgeSchema.ValidateEvidence | app/schemas/judge.py:4-14 | `Evidence` validation of one JSON value. A record it accepts carries the string `type` it was given, and each optional field (`title`, `desc`, `year`, `link`, `role`) is exactly what that field's optional validation reads: its value when present, `None` when the key is absent or null. |
| JudgeSchema.ValidIffConforms | app/schemas/judge.py:4-23 | Validation succeeds exactly on the conforming values. Those have the four required keys with their types, the score within bounds, and every evidence entry with a string `type`, optional strings, and an optional integer `year`. |
| JudgeSchema.EvidenceValidIff | app/schemas/judge.py:9-14 | `Evidence` validation succeeds exactly when `type` is a string, `year` is absent, null or an integer, and the other four fields are absent, null or strings. |
| JudgeSchema.ValidateEvidenceList | app/schemas/judge.py:23 | A validated evidence list has one record per entry, each the validation of that entry. |
| JudgeSchema.OptionalStr | app/schemas/judge.py:10-14 | An optional string field defaults to `None` when absent or null. |
| JudgeSchema.OptionalInt | app/schemas/judge.py:12 | `year` is an integer or `None`. |
| JudgeSchema.RoundTrip | app/schemas/judge.py:16-23 | A dumped well-formed record validates back to itself. |
| JudgeSchema.ValidatedKeepsFields | app/schemas/judge.py:20-23 | A validated record holds exactly the id, score and reason of its JSON value, and one evidence record per entry. |
| JudgeSchema.EvidenceToJson | app/schemas/judge.py:4-14 | The `Evidence` part of `model_dump()`: exactly the six fields of `Evidence`. |
| JudgeSchema.ToJson | app/services/judge.py:62 | `model_dump()` gives exactly the four keys. |
| Judge.SplitJoin | app/services/judge.py:16 | Splitting `"\n".join(lines)` at the newlines gives the lines back when none holds a newline. |
| Judge.CandidateTextLines | app/services/judge.py:16 | The candidate text has one `key: value` line per field, in field order. |
| Judge.CandidateText | app/services/judge.py:16 | `candidate_text`: the `key: value` lines of the fields, joined by newlines. |
| Judge.JudgePrompt | app/services/judge.py:11-49 | The prompt contains the persona text and the whole candidate text. |
| Judge.JudgeCandidate | app/services/judge.py:51-69 | `judge_candidate`: every judgement has exactly the four keys of `JudgeOutput` and an integer `fit_score` between 0 and 100, fallbacks included. |
| Judge.Fallback | app/services/judge.py:63-69 | Definition of the fallback dict: the four keys, the candidate's `id`, score 0, no evidence, and the given reason. |
| Judge.JudgeCandidateCases | app/services/judge.py:51-69 | A failed call gives the "unexpected error" fallback. A reply that does not parse or validate gives the "parsing" fallback. Otherwise the result validates to the parsed record. |
| Judge.JudgeCandidateConforms | app/services/judge.py:58-69 | With a string candidate id, every judgement, fallbacks included, conforms to `JudgeOutput`, with score between 0 and 100. |
| Judge.Batches | app/services/judge.py:76-77 | `candidates[i:i+batch_size]` for each `i` of `range(0, len(candidates), batch_size)`. |
| Judge.JudgeBatch | app/services/judge.py:77-78 | Definition of the tasks of one batch: `judge_candidate` on each candidate, in order. |
| Judge.BatchesFlatten | app/services/judge.py:76-77 | The batches, concatenated, are the candidate list. |
| Judge.BatchSizes | app/services/judge.py:76-77 | Every batch holds `batch_size` candidates except the last, which holds between 1 and `batch_size`. |
| Judge.BatchCount | app/services/judge.py:81 | There are `(n + batch_size - 1) // batch_size` batches. |
| Judge.BatchwiseIsWhole | app/services/judge.py:76-80 | Judging batch by batch and concatenating is judging the whole list in order. |
| Judge.JudgeParallel | app/services/judge.py:71-83 | Batch size 0 raises. A negative batch size judges nothing. A positive one gives exactly one judgement per candidate, the j-th being that of `candidates[j]`, equal to the concatenated batch results. |
| Retrieve.VecResults | app/services/retrieve.py:28-49 | `vec_results` after step 1: the search results when vector search is on and the search returned, otherwise `[]`. |
| Retrieve.IsBlended | app/services/retrieve.py:67-88 | `blended_results` after step 3: the blend when both lists are non-empty, otherwise the non-empty list itself. |
| Retrieve.BlendedDistinctIds | app/services/retrieve.py:69-88 | The blended list has distinct ids when both inputs do. |
| Retrieve.FinishWithin | app/services/retrieve.py:93-124 | Step 4 returns at most twelve documents of the blended list, with distinct ids. |
| Retrieve.RetrievalAtMostTwelve | app/services/retrieve.py:23-124 | Every path of the decision table returns at most twelve documents, each id at most once. |
| Retrieve.SingleSourceKeepsDocuments | app/services/retrieve.py:78-88 | With one list empty, the documents returned are unchanged documents of the other list. |
| Retrieve.Finish | app/services/retrieve.py:93-124 | Step 4: the `mmr` result on the top twenty when the blended list has more than one entry and vectors were fetched; otherwise, or when `mmr` raises, the first twelve blended entries. |
| Retrieve.IsRetrieval | app/services/retrieve.py:23-124 | The decision table of `hybrid_retrieve`: an empty query, a keyword failure, two empty lists, and the blend followed by step 4. |
| Retrieve.HybridRetrieve | app/services/retrieve.py:14-124 | The method follows the decision table. An empty query gives `[]`. A keyword failure gives `vec_results[:12]`. Otherwise the lists are blended at alpha 0.6 or used alone, and `mmr` (lambda 0.5, k 12) runs on the top 20 when there is more than one entry and vectors were fetched. If `mmr` is skipped or raises, the result is the top 12. The result never exceeds 12. |

## Left out

- `math.sqrt`, floating point and rounding: scores are `real`. The square root is the parameter `sqrt`, and only `CosineSelfIsOne` assumes it is exact.
- Mmr.CosineOfZeroVector: this states only the zero-vector direction. The converse needs nonlinear real reasoning that is not proved here. It would say that a zero sum of squares forces a zero vector, so a zero magnitude means a zero vector.
- The database, embedding and language-model adapters. They are given as outcomes: the vector search, the keyword search, the vector fetch and the model call. Their connection handling, queries and parsing are not modelled.
- Retrieve.HybridRetrieve: its precondition on vector results comes from the vector adapter. Each result carries a string id and a score (app/adapters/pgvector.py:74-75). The ids are distinct because the query reads one table (app/adapters/pgvector.py:48-61) whose `id` is the primary key (app/db_init.py:33).
- Retrieve.HybridRetrieve: keyword results are required to have distinct ids. `db_keyword_topk` is not part of this model.
- Mmr.Mmr: it requires distinct input ids. On the two-list path of `hybrid_retrieve`, `blend_scores` guarantees them. On the single-list paths (app/services/retrieve.py:78-85) they come from the adapters: vector ids are a primary key, and keyword ids are required distinct. With repeated ids the method as written and `MmrOutcome` part ways (see "## Findings").
- Scoring.BlendScores: it requires every vector result to carry a score. The `KeyError` of `r['score']` at app/utils/scoring.py:13 is not modelled. The only caller passes vector-adapter results, which always carry one (app/adapters/pgvector.py:74-75).
- Mmr.VectorOf: its empty default for an id without a vector is never reached by the loop, since every remaining id has a vector.
- Sorting.SortSeq: sort stability and the order among equal keys are not stated. Blending iterates a set, so its tie order is open in the source too.
- The blend's cardinality is stated as a bijection. The blend has one entry per distinct canonical id of the union; it is not given as a number.
- `asyncio.gather` concurrency: each batch is judged in order. Model replies are a function of the prompt, so identical prompts get identical replies.
- JudgeSchema.ValidateJudgeOutput: validation is strict. Pydantic's lax coercions are not modelled: numeric strings or integral floats to `int`, and the like. Error messages are indicative only.
- JudgeSchema.Json: it has no constructor for non-integral numbers. A reply with a fractional number, even under a key the schema ignores, validates in Pydantic but cannot be written as a `Json` value here.
- Judge.Candidate: a field list may repeat a key, which a dict cannot. `Get` then reads the first entry while `CandidateText` prints every entry. For the key-distinct lists that stand for dicts the two views agree.
- The wording of `create_judge_prompt` is a parameter (`PromptFrame`). So is Python's `str` of a persona or a field value.
- The logging calls and the progress messages, apart from the batch count they print.
- Extraction of `query_text` from the persona dict is reduced to the string itself. A missing key is the empty string.

## Findings

| source | as written | input that shows it | evidently intended | confidence | as-written member | corrected member |
|---|---|---|---|---|---|---|
| app/utils/mmr.py:36-64 | `remaining_ids.remove(best_id)` drops only the first copy of a repeated eligible id, so the loop can select that id again. | Three documents with ids `"a"`, `"a"`, `"b"`, vectors for both ids, `k = 2`, and `a` scoring no lower than `b` after `a`: `a` is selected twice, the two `a` documents are returned, and `b` is left out. | Each eligible id considered once, so `b` is selected second. | not executed | Mmr.RepeatedIdSelectedTwice | Mmr.DiversifiedDocs |
| app/utils/mmr.py:67 | The final filter keeps every document whose id was selected, so documents sharing an id are all returned. | Two documents with id `"a"`, a vector for `"a"`, and `k = 1`: one id is selected and two documents are returned. | At most `k` documents, one per selected id, since the docstring describes `k` as the number of results. | not executed | Mmr.RepeatedIdExceedsK | Mmr.DiversifiedDocs |

`MmrOutcome` uses the corrected result, which runs the loop over the eligible ids taken once each and returns one document per selected id. The `Mmr` method, which follows the source, is proved equal to it on inputs with distinct ids (`MmrOutcomeOfDistinct`), and those are the only inputs `hybrid_retrieve` passes.
