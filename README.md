# Clinical QA pipeline: span labelling, answer scoring and record cleaning

A Dafny model of the deterministic core of a clinical question-answering
pipeline (an extractive QA model fine-tuned on MIMIC and Synthea
records). The model covers the pieces that remain once tokenizer, model,
HTTP and file handling are taken away:

- **`DataUtils`** (`src/data_utils.py`). The label-assignment loop of
  `prepare_train_features`. The tokenizer's windowed encoding is an input:
  per window its `input_ids`, `offsets`, `sequence_ids`, and the
  `overflow_to_sample_mapping` entry. `LabelWindow` is the loop body. It
  finds the CLS position and the first and last context positions, runs
  the containment test, and then either emits the CLS label or runs the
  two cursor loops with their ±1 adjustment. `PrepareTrainFeatures` is the
  loop over windows. The forward cursor has no context-end bound, and the
  model keeps that as written.
- **`EvalUtils`** (`src/eval_utils.py`). The SQuAD v1.1 answer
  normalisation (lower-case, drop punctuation, replace whole-word
  `a`/`an`/`the` by a space, collapse whitespace), the multiset token F1
  and exact match. F1 values are exact `real`s.
- **`TestingUtils`** (`src/testing_utils.py`). `fix_answer_spans`, run
  over a list of records. A record whose stored span matches is kept. A
  mismatching one gets the first occurrence of its answer, or is skipped
  when the answer does not occur. The fixed and skipped counters are
  modelled too.
- **`MergeJsonl`** (`scripts/merge_jsonl.py`). First-seen-wins
  deduplication of JSON Lines records on the key `(hadm_id, question)`,
  across the concatenated input files. Lines that fail to parse or lack a
  key field are skipped.
- **`F1SampleEvaluation`** (`scripts/f1_sample_evaluation.py`). The
  set-based EM/F1 aggregate `compute_em_f1` and the bracketed-reference
  filter.
- **`PredictionReview`** (`scripts/prediction_review.py`). The collection
  of bad predictions. The stable in-place sort by F1 of
  `print_top_bad_predictions`, an `array` method, and the first `n` items
  it prints.
- **`ExtractRadiologySamples`** (`scripts/extract_radiology_samples.py`).
  `is_informative` with `CLINICAL_KEYWORDS`, the row filter, and the
  sample size.

Shared modules:

- `Seqs`: Python's `list.index`, slicing with clamping, subsequences, and
  a generic filter-map.
- `Text`: ASCII `str.lower`, `str.split`, `' '.join`, `str.strip`,
  `str.find`, and `in` on strings.
- `Records`: JSON values and the record types.

Python's negative slice bounds are modelled explicitly (`Seqs.PySlice`), so
`answer_start` may be any integer.

Counting the raw tokens of `f1_score("a b c", "b c d")` would give 2/3,
but the code scores it 4/5: normalisation deletes the article `a` from the
prediction before the tokens are counted, leaving `b c` against `b c d`.
`EvalUtils.ArticleDroppedExample` proves the 4/5. Similarly, exact match
of "Epogen" against "epogen " holds, since normalisation lower-cases and
strips whitespace.

## Model

| member | source | states |
|---|---|---|
| Seqs.Reversed | src/data_utils.py:49 | `s[::-1]`: same length, and position k holds `s[len-1-k]` |
| Seqs.IndexOf | src/data_utils.py:40 | `list.index`: the result is a position of `x`, and no earlier position holds `x` |
| Seqs.LastIndexOf | src/data_utils.py:49 | `len(s) - 1 - s[::-1].index(x)`: a position of `x` with no later occurrence |
| Seqs.SliceBound | src/testing_utils.py:26 | how Python resolves one slice bound against length n: a bound in [0, n] stays, one above n becomes n, one in [-n, 0) becomes i + n, one below -n becomes 0 |
| Seqs.PySlice | src/testing_utils.py:25-26 | `s[i:j]` is `s[lo:hi]` for the two resolved bounds, or empty when hi < lo; an in-range slice is the ordinary slice, two negative bounds in range count from the end, and a negative start with an in-range end gives `s[i+len:j]` or empty |
| Text.IsSpace | src/eval_utils.py:18 | the ASCII characters `str.split()` treats as whitespace: codes 9-13 and 28-32 |
| Text.IsWordChar | src/eval_utils.py:16 | the ASCII characters of the regex class `\w`: letters, digits and `_` |
| Text.Lower | src/eval_utils.py:21-22 | same length, each character lower-cased (ASCII) |
| Text.LowerIdentity | src/eval_utils.py:21-22 | text without capitals is unchanged by lower-casing |
| Text.Split | src/eval_utils.py:18 | `str.split()`: every piece is a non-empty run without whitespace; `SplitToken` and `SplitAtSpace` fix which runs they are |
| Text.SplitToken | src/eval_utils.py:18 | a non-empty text without whitespace splits into exactly itself |
| Text.SplitAtSpace | src/eval_utils.py:18 | a whitespace character separates: `split(a + c + b)` is `split(a)` followed by `split(b)`, so the tokens are the maximal non-whitespace runs, in order |
| Text.Join | src/eval_utils.py:18 | `' '.join`: its properties are stated by `SplitJoin`, `JoinShape` and `JoinChars` |
| Text.JoinChars | src/eval_utils.py:18 | every character of a join is a space or a character of one of the parts |
| Text.SplitJoin | src/eval_utils.py:18 | joining tokens with single spaces and splitting again gives the tokens back |
| Text.JoinShape | src/eval_utils.py:18 | a joined text has no leading, trailing or doubled whitespace, and each gap is one space |
| Text.Strip | scripts/f1_sample_evaluation.py:13-14 | `str.strip()`: no whitespace at either end; all-non-space text is unchanged; every character comes from the input |
| Text.StripSlice | scripts/f1_sample_evaluation.py:13-14 | the stripped text is the slice of the input that starts after the leading whitespace run, with only whitespace before and after it |
| Text.Find | src/testing_utils.py:27 | `str.find`: -1 exactly when there is no occurrence, otherwise the least occurrence |
| Text.Contains | scripts/f1_sample_evaluation.py:37 | `sub in s` holds exactly when `sub` occurs at some index |
| DataUtils.StartChar | src/data_utils.py:44 | `start_char`: the example's `answer_start` |
| DataUtils.EndChar | src/data_utils.py:45 | `end_char`: `answer_start` plus the length of the answer text |
| DataUtils.ClsIndex | src/data_utils.py:40 | `input_ids.index(cls_token_id)`; `Seqs.IndexOf` states that it is the first CLS position |
| DataUtils.ContextStart | src/data_utils.py:48 | `sequence_ids.index(1)`; stated by `ContextBounds` |
| DataUtils.ContextEnd | src/data_utils.py:49 | the last position with sequence id 1; stated by `ContextBounds` |
| DataUtils.AnswerInWindow | src/data_utils.py:52 | the containment test; `LabelWindow` and `LabelCoversAnswer` state what follows from it |
| DataUtils.IsWindowLabel | src/data_utils.py:51-63 | the window-label specification; `LabelWindow` meets it and `WindowLabelUnique` shows it fixes both labels |
| DataUtils.ContextBounds | src/data_utils.py:48-49 | the first and last context positions carry sequence id 1, are ordered, and enclose every context position |
| DataUtils.LabelWindow | src/data_utils.py:39-63 | the two labels meet the window-label specification: CLS twice when the answer is not inside the context, otherwise the two cursor postconditions |
| DataUtils.PrepareTrainFeatures | src/data_utils.py:38-67 | one start and one end label per window, in window order, each labelling the answer of the window's own sample |
| DataUtils.WindowLabelUnique | src/data_utils.py:52-63 | the window-label specification determines both labels |
| DataUtils.LabelCoversAnswer | src/data_utils.py:56-63 | with the answer inside the context, `context_start <= start < len(offsets)` and `0 <= end <= context_end`; the start token begins at or before `start_char` and the next token, if any, begins after it; the end token ends at or after `end_char` and the previous token, if any, ends before it (the two labels are not claimed to be ordered) |
| DataUtils.StartLabelRunsPastContext | src/data_utils.py:58-62 | when the answer starts in the last context token and the tail is `(0,0)` padding, the start label is `len(offsets)-1`, past the context |
| DataUtils.ScenarioLabels | src/data_utils.py:38-63 | a concrete window: an answer inside gets labels (12, 14), one beyond the window gets (0, 0) |
| DataUtils.ShapeLabels | src/data_utils.py:38-63 | the same labels for every window of that shape |
| EvalUtils.Punctuation | src/eval_utils.py:20 | `string.punctuation`: the 32 ASCII punctuation characters |
| EvalUtils.IsPunct | src/eval_utils.py:20 | `ch in string.punctuation` |
| EvalUtils.IsArticle | src/eval_utils.py:16 | the alternatives `a`, `an` and `the` of the pattern |
| EvalUtils.RemovePunc | src/eval_utils.py:19-20 | no punctuation is left, every character comes from the input, and punctuation-free text is unchanged |
| EvalUtils.RemovePuncExact | src/eval_utils.py:19-20 | the result is a subsequence of the input, and every non-punctuation character occurs in it as often as in the input |
| EvalUtils.RemoveArticles | src/eval_utils.py:15-16 | text that does not start with a word character keeps that property; `RemoveArticlesWord`, `RemoveArticlesOther` and `RemoveArticlesConcat` fix the result |
| EvalUtils.RemoveArticlesWord | src/eval_utils.py:15-16 | one run of word characters becomes a single space when it is `a`, `an` or `the`, and is kept otherwise |
| EvalUtils.RemoveArticlesOther | src/eval_utils.py:15-16 | a character that is not a word character is kept |
| EvalUtils.RemoveArticlesConcat | src/eval_utils.py:15-16 | across a boundary that does not join two word runs, `remove_articles` of the concatenation is the concatenation of the two results |
| EvalUtils.RemoveArticlesComplete | src/eval_utils.py:15-16 | after `remove_articles` no word run spells `a`, `an` or `the` |
| EvalUtils.RemoveArticlesIdentity | src/eval_utils.py:15-16 | text without articles is unchanged |
| EvalUtils.RemoveArticlesClean | src/eval_utils.py:15-16 | removing articles keeps text free of punctuation and capitals |
| EvalUtils.NoArticlesConcat | src/eval_utils.py:15-16 | article freedom splits over two texts that meet at a word boundary |
| EvalUtils.WordRunNoArticles | src/eval_utils.py:15-16 | a single word that is not an article is article-free |
| EvalUtils.ArticleIsNotArticleFree | src/eval_utils.py:15-16 | an article itself is not article-free |
| EvalUtils.SplitNoArticles | src/eval_utils.py:17-18 | splitting article-free text gives article-free tokens |
| EvalUtils.JoinNoArticles | src/eval_utils.py:17-18 | joining article-free tokens gives article-free text |
| EvalUtils.WhiteSpaceFix | src/eval_utils.py:17-18 | `' '.join(text.split())`; stated by `WhiteSpaceFixPreserves` and `NormalizeAnswerShape` |
| EvalUtils.WhiteSpaceFixPreserves | src/eval_utils.py:17-18 | `white_space_fix` keeps text clean and article-free |
| EvalUtils.LowerRemovePuncClean | src/eval_utils.py:19-22 | after the first two steps no punctuation or capital remains |
| EvalUtils.BeforeWhiteSpaceFix | src/eval_utils.py:23 | after the first three steps the text is clean and has no articles |
| EvalUtils.NormalizeAnswer | src/eval_utils.py:11-23 | the four steps in order; stated by `NormalizeAnswerShape` and `NormalizeAnswerIdempotent` |
| EvalUtils.NormalizeAnswerShape | src/eval_utils.py:11-23 | a normalised answer has no punctuation, capitals or articles, no leading or trailing whitespace, and single spaces between words |
| EvalUtils.NormalizeAnswerIdempotent | src/eval_utils.py:11-23 | normalising twice equals normalising once |
| EvalUtils.Tokens | src/eval_utils.py:31-32 | `normalize_answer(s).split()`; stated by `TokensAreNotArticles` and `F1Cases` |
| EvalUtils.TokensAreNotArticles | src/eval_utils.py:31-32 | no token of a normalised answer is `a`, `an` or `the` |
| EvalUtils.CommonCount | src/eval_utils.py:33-34 | the size of the multiset intersection is at most either token count |
| EvalUtils.HarmonicMean | src/eval_utils.py:39-41 | with precision c/p and recall c/g, the harmonic mean is 2c/(p+g), in (0, 1] |
| EvalUtils.F1FromCounts | src/eval_utils.py:39-41 | `2·p·r/(p+r)` equals `2·num_same/(len_pred+len_gt)` and lies in (0, 1] |
| EvalUtils.F1OfTokens | src/eval_utils.py:35-41 | the token F1 lies in [0, 1] |
| EvalUtils.F1Score | src/eval_utils.py:27-41 | `f1_score`; stated by `F1Cases`, `ScoresSymmetric` and `ExactMatchFullF1` |
| EvalUtils.ExactMatchScore | src/eval_utils.py:43-47 | `exact_match_score`; stated by `ScoresSymmetric` and `ExactMatchFullF1` |
| EvalUtils.F1Cases | src/eval_utils.py:27-41 | an empty side scores 1 if both are empty and 0 otherwise; no overlap scores 0; otherwise `2·common/(|pred|+|gt|)` in (0, 1] |
| EvalUtils.F1OfTokensCases | src/eval_utils.py:35-41 | the same three cases over token lists |
| EvalUtils.ScoresSymmetric | src/eval_utils.py:27-47 | F1 and exact match are symmetric in their arguments |
| EvalUtils.F1OfSameTokens | src/eval_utils.py:33-41 | identical token lists score 1 |
| EvalUtils.ExactMatchFullF1 | src/eval_utils.py:31-47 | an exact match has F1 1 |
| EvalUtils.TokensThree | src/eval_utils.py:11-32 | three one-letter words normalise to their tokens with a leading `a` removed |
| EvalUtils.ArticleDroppedExample | src/eval_utils.py:27-41 | `f1_score("a b c", "b c d")` is 4/5: the article is dropped before counting |
| TestingUtils.SpanMatches | src/testing_utils.py:25-26 | `context[start:start+len(answer)] == answer`; `Repair` and `RepairedSpansMatch` state it for every emitted record |
| TestingUtils.Repair | src/testing_utils.py:20-33 | a matching record is kept unchanged; a mismatching one gets the least index where its answer occurs, or is skipped exactly when the answer does not occur; every emitted record matches |
| TestingUtils.Repaired | src/testing_utils.py:18-35 | the records written; stated by `FixAnswerSpans`, `OnlyStartChanges`, `SurvivorsSubsequence`, `RepairedSpansMatch` and `RepairIdempotent` |
| TestingUtils.FixedCount | src/testing_utils.py:32-33 | the `fixed` counter; stated by `FixAnswerSpans` and `CountersAccount` |
| TestingUtils.SkippedCount | src/testing_utils.py:28-31 | the `skipped` counter; stated by `FixAnswerSpans` and `CountersAccount` |
| TestingUtils.FixAnswerSpans | src/testing_utils.py:12-36 | the loop emits the repaired records in order and counts fixes and skips as the per-record repair does |
| TestingUtils.RepairedSpansMatch | src/testing_utils.py:25-35 | every emitted record's slice equals its answer, and with a non-negative start and non-empty answer the span lies inside the context |
| TestingUtils.MatchInBounds | src/testing_utils.py:25-26 | a matching slice with a non-negative start is an in-bounds span |
| TestingUtils.CountersAccount | src/testing_utils.py:16-33 | output length is input length minus `skipped`, and `fixed + skipped` is at most the input length |
| TestingUtils.OnlyStartChanges | src/testing_utils.py:18-35 | each output record is the corresponding surviving input with at most `answer_start` changed, to `find`'s result when it did not match |
| TestingUtils.SurvivorsSubsequence | src/testing_utils.py:18-35 | the surviving records are a subsequence of the input |
| TestingUtils.SkippedIffAbsent | src/testing_utils.py:27-31 | a record is skipped exactly when its answer does not occur in its context |
| TestingUtils.NegativeStartMatch | src/testing_utils.py:25-26 | a negative start that still matches (Python's negative slicing) implies the answer occurs |
| TestingUtils.RepairIdempotent | src/testing_utils.py:12-35 | repairing the output again changes nothing and fixes or skips nothing |
| TestingUtils.AllMatching | src/testing_utils.py:25-35 | records that all match pass through unchanged with both counters 0 |
| TestingUtils.FixedAt | src/testing_utils.py:27-33 | a mismatching record whose answer first occurs at k is fixed to start k |
| TestingUtils.DoseRecordFixed | src/testing_utils.py:26-33 | a dose record with a stale start is fixed to the answer's real position |
| TestingUtils.DoseRecordDropped | src/testing_utils.py:26-31 | a record whose answer is absent from its context is dropped |
| MergeJsonl.AsKeyPart | scripts/merge_jsonl.py:27-28 | strings, numbers, booleans and null can be key parts; lists and objects cannot be hashed |
| MergeJsonl.KeyOfJson | scripts/merge_jsonl.py:27 | a key exists exactly for an object with hashable `hadm_id` and `question` fields, and is that pair |
| MergeJsonl.KeyOf | scripts/merge_jsonl.py:25-27 | an unparsable line has no key; a parsed one has its object's key |
| MergeJsonl.Flatten | scripts/merge_jsonl.py:22-24 | the lines of all files, in order; `MergeUniqueQaEntries` merges exactly them |
| MergeJsonl.Merge | scripts/merge_jsonl.py:19-30 | first-seen-wins merge; stated by `MergeKeepsFirsts`, `MergeDistinct`, `MergeKeys`, `MergeSubsequence` and `MergeIdempotent` |
| MergeJsonl.Keys | scripts/merge_jsonl.py:27-29 | the keys of a list of entries; stated by `KeysMembers` |
| MergeJsonl.MergeUniqueQaEntries | scripts/merge_jsonl.py:15-32 | the nested loops over files and lines compute the first-seen-wins merge of the concatenated inputs |
| MergeJsonl.KeysMembers | scripts/merge_jsonl.py:29-30 | the `seen` keys are exactly the keys of the kept entries |
| MergeJsonl.ValidKeysMembers | scripts/merge_jsonl.py:25-27 | the valid keys are exactly those of lines that have a key |
| MergeJsonl.MergeKeys | scripts/merge_jsonl.py:19-30 | the keys of the output equal the keys of all valid input lines |
| MergeJsonl.MergeDistinct | scripts/merge_jsonl.py:27-30 | every output entry has a key and no two share one |
| MergeJsonl.DistinctAppend | scripts/merge_jsonl.py:28-30 | appending an entry with an unseen key keeps keys distinct |
| MergeJsonl.MergeSubsequence | scripts/merge_jsonl.py:22-30 | the output is a subsequence of the keyed input records, in order |
| MergeJsonl.MergeKeepsFirsts | scripts/merge_jsonl.py:28-30 | the output is exactly the first occurrence of each key, in input order |
| MergeJsonl.SkippedLine | scripts/merge_jsonl.py:25-32 | a line without a key changes neither the output nor `seen` |
| MergeJsonl.MergeStep | scripts/merge_jsonl.py:28-30 | one more line is appended exactly when its key is valid and unseen |
| MergeJsonl.MergeDistinctIdentity | scripts/merge_jsonl.py:15-30 | records with distinct keys merge to themselves |
| MergeJsonl.MergeIdempotent | scripts/merge_jsonl.py:15-30 | merging the output again yields the same output |
| F1SampleEvaluation.Clean | scripts/f1_sample_evaluation.py:13-14 | `s.strip().lower()`; stated by `Text.Strip`, `Text.StripSlice` and `Text.Lower` |
| F1SampleEvaluation.SampleEm | scripts/f1_sample_evaluation.py:15 | the per-sample exact match; `ScoreSample` computes it and `RepeatedTokenCountsOnce` shows a case |
| F1SampleEvaluation.SampleF1 | scripts/f1_sample_evaluation.py:17-23 | the per-sample set F1; `SetF1` bounds it and `EmptyPairDiffers` shows a case |
| F1SampleEvaluation.CommonTokens | scripts/f1_sample_evaluation.py:19 | the set intersection of the two token lists, no larger than either list |
| F1SampleEvaluation.SetF1 | scripts/f1_sample_evaluation.py:19-23 | per-sample F1 in [0, 1]; 0 when a side is empty or nothing is shared, else 2·shared/(|pred|+|ref|) over token sets |
| F1SampleEvaluation.EmCount | scripts/f1_sample_evaluation.py:13-15 | the number of exact matches is at most the number of samples |
| F1SampleEvaluation.F1Sum | scripts/f1_sample_evaluation.py:17-23 | the sum of per-sample F1 values lies between 0 and the number of samples |
| F1SampleEvaluation.ScoreSample | scripts/f1_sample_evaluation.py:13-23 | the loop body: its match flag is the sample's exact match and its score the sample's set F1, in [0, 1] |
| F1SampleEvaluation.Totals | scripts/f1_sample_evaluation.py:11-23 | the loop's two accumulators end as the number of exact matches and the sum of the per-sample F1 values |
| F1SampleEvaluation.ComputeEmF1 | scripts/f1_sample_evaluation.py:7-26 | `(0, 0)` for no samples, otherwise 100 × the exact-match share and 100 × the mean F1, both in [0, 100] |
| F1SampleEvaluation.ScoresInRange | scripts/f1_sample_evaluation.py:25-26 | both scaled scores of a non-empty list lie in [0, 100] |
| F1SampleEvaluation.Bracketed | scripts/f1_sample_evaluation.py:37 | the filter's test; stated by `BracketChars` |
| F1SampleEvaluation.BracketedFilter | scripts/f1_sample_evaluation.py:35-38 | every kept sample's reference contains `[` and `]` |
| F1SampleEvaluation.BracketedFilterExact | scripts/f1_sample_evaluation.py:35-38 | the filter keeps, in order, each bracketed sample as often as it occurs, and nothing else |
| F1SampleEvaluation.BracketChars | scripts/f1_sample_evaluation.py:37 | the filter's test holds exactly when both bracket characters occur |
| F1SampleEvaluation.EmptyPairDiffers | scripts/f1_sample_evaluation.py:21-23 | two empty strings score 0 here but 1 under the multiset F1 |
| F1SampleEvaluation.RepeatedTokenCountsOnce | scripts/f1_sample_evaluation.py:19-23 | "x x" against itself is an exact match with set F1 1/2, while the multiset F1 is 1 |
| PredictionReview.DefaultF1Threshold | scripts/prediction_review.py:21 | the default `f1_threshold`, 0.9, used as the default of `CollectBadPredictions` |
| PredictionReview.DefaultTopN | scripts/prediction_review.py:41 | the default `n`, 10, used as the default of `PrintTopBadPredictions` |
| PredictionReview.IsBad | scripts/prediction_review.py:29-31 | `em == 0 or f1 < f1_threshold`; stated by `IsBadThresholds` |
| PredictionReview.IsBadThresholds | scripts/prediction_review.py:29-31 | at a threshold at most 0 an example is bad exactly when it is not an exact match; up to 1 an exact match is never bad; above 1 every example is bad |
| PredictionReview.Entry | scripts/prediction_review.py:32-38 | the record appended; `Origin` shows it determines its example |
| PredictionReview.BadOf | scripts/prediction_review.py:25-39 | the collected records; stated by `BadOfExact` and `NoExactMatchKept` |
| PredictionReview.Origin | scripts/prediction_review.py:32-38 | a bad-prediction entry determines the prediction it came from |
| PredictionReview.CollectBadPredictions | scripts/prediction_review.py:21-39 | the loop collects the entries of the bad examples, in order; the threshold defaults to 0.9 |
| PredictionReview.BadOfExact | scripts/prediction_review.py:26-39 | kept entries are in input order and no more than the inputs; each bad example is kept as often as it occurs and no good one; each entry carries its example's fields and its F1 in [0, 1] |
| PredictionReview.NoExactMatchKept | scripts/prediction_review.py:31 | with a threshold of at most 1, no exact match is ever kept |
| PredictionReview.SwapStable | scripts/prediction_review.py:45 | exchanging two neighbours with different F1 values keeps the same elements and the same order within each F1 value |
| PredictionReview.SwapAdjacent | scripts/prediction_review.py:45 | exchanging an out-of-order pair of neighbours is a stable reordering |
| PredictionReview.InsertLast | scripts/prediction_review.py:45 | one insertion step: `a[..i+1]` ends sorted, the array is a stable reordering of the old one, and every record after `i` stays in place |
| PredictionReview.PrefixKept | scripts/prediction_review.py:45 | a reordering that leaves everything after `i` in place keeps the multiset of `a[..i+1]`, so the insertion step sorts the old prefix together with `old(a[i])` |
| PredictionReview.SortByF1 | scripts/prediction_review.py:45 | `list.sort(key=f1)`: the array ends non-decreasing in F1, a permutation of the original with ties in their original order |
| PredictionReview.StableReorderTrans | scripts/prediction_review.py:45 | stable reorderings compose |
| PredictionReview.PrintTopBadPredictions | scripts/prediction_review.py:41-47 | sorts stably in place and shows the first `n` entries; `n` defaults to 10 |
| PredictionReview.TopAreWorst | scripts/prediction_review.py:46 | the first `min(n, len)` entries are shown, and none has a higher F1 than any entry left out |
| ExtractRadiologySamples.NumSamples | scripts/extract_radiology_samples.py:11 | `NUM_SAMPLES`, 400; `SampleSize` uses it |
| ExtractRadiologySamples.ClinicalKeywords | scripts/extract_radiology_samples.py:15-19 | `CLINICAL_KEYWORDS`: the same 19 lower-case keywords in the same order; `IsInformative` states how they are used |
| ExtractRadiologySamples.MinLength | scripts/extract_radiology_samples.py:24 | the 300-character bound of `len(report) < 300`; `IsInformative` states that shorter reports are not informative |
| ExtractRadiologySamples.AnyKeyword | scripts/extract_radiology_samples.py:27 | `any(kw in text ...)` holds exactly when some keyword occurs |
| ExtractRadiologySamples.IsInformative | scripts/extract_radiology_samples.py:22-27 | false for a non-string or fewer than 300 characters; otherwise true exactly when the lower-cased report contains `impression` or one of the keywords |
| ExtractRadiologySamples.CaseInsensitive | scripts/extract_radiology_samples.py:26-27 | a long report containing `impression` or a keyword in any case is informative |
| ExtractRadiologySamples.LowerInvariant | scripts/extract_radiology_samples.py:26 | lower-casing a report does not change the verdict |
| ExtractRadiologySamples.ExtendInformative | scripts/extract_radiology_samples.py:24-27 | an informative report stays informative when text is appended |
| ExtractRadiologySamples.Filtered | scripts/extract_radiology_samples.py:35 | the informative reports; stated by `FilteredExact` |
| ExtractRadiologySamples.FilteredExact | scripts/extract_radiology_samples.py:35 | the row filter keeps, in order, each informative report as often as it occurs, and nothing else |
| ExtractRadiologySamples.SampleSize | scripts/extract_radiology_samples.py:39 | `min(NUM_SAMPLES, len(filtered))`: 400 when there are enough reports, otherwise all |

## Left out

- The tokenizer call and `load_qa_dataset` (`src/data_utils.py:9-30`) are a foreign library call and file I/O. The windowed encoding is a parameter of `DataUtils.PrepareTrainFeatures`.
- `DataUtils.PrepareTrainFeatures` requires a CLS token and a context position in every window, and every sample-mapping entry to be in range. In Python the `.index` calls raise `ValueError` otherwise, and the indexing raises `IndexError`. It also requires one sample-mapping entry per window and, through `DataUtils.WellFormed`, as many sequence ids as offsets in each window. The tokenizer guarantees both of these, and the model does not cover windows that break them.
- File opening, JSON parsing and serialisation, and `print` output are left out of every script. Parsing is abstracted as a line that is either `Unparsable` or a parsed `Json` value.
- JSON numbers are integers. Floating-point record fields are not modelled, so Python's `1.0 == 1` key collapse in `MergeJsonl` is not captured. Booleans are folded into integers, as Python hashes `True` like `1`.
- Characters are treated as ASCII. `str.lower`, `\w` and `\b` are modelled only on ASCII text; Unicode case mapping and Unicode word characters are not.
- F1 values are exact `real`s. Floating-point rounding and the `:.2f` formatting are not modelled.
- `TestingUtils.FixAnswerSpans`, `PredictionReview.CollectBadPredictions`, `F1SampleEvaluation.ComputeEmF1`, `DataUtils.PrepareTrainFeatures` and the bracketed filter take typed records. The `KeyError`, `TypeError` and `AttributeError` that Python raises on a missing or mistyped field (for example `s["prediction"].strip()` on a record without a string prediction) are not modelled.
- `PredictionReview.SortByF1` is an insertion sort by adjacent exchanges, not Python's Timsort. It is proved only to have the result `list.sort` promises: a stable permutation that is non-decreasing in F1.
- `PredictionReview.PrintTopBadPredictions` returns the entries it would print, instead of printing them.
- `inspect_tokenization` and `load_predictions` are left out: a tokenizer call and file I/O.
- The random draw `filtered.sample(sample_size, random_state=42)` is left out, along with the CSV reading and the JSONL writing. Only the row filter and the sample size are modelled. A pandas missing value in the report column is the `NotText` cell.
- Model loading, training, the HTTP endpoint, the generation scripts and the other evaluation scripts are not part of this model.
