# Science-checker: the ScienceQA bookkeeping, in Dafny

Science-checker answers questions of the form "Does X increase Y?" from
scientific abstracts. Around its neural models sits plain list and string
bookkeeping, and that is what this project models and proves things about:

- **The sampler.** There are two copies: the served one (`ApiSampler`) and
  the older command-line one (`UtilsSampler`). The sampler cuts each
  article's sentences into overlapping windows and renders one
  "question SEP window" string per window. It formats the training tables,
  finds the answer span in the token ids of the extractive training
  contexts, and keeps the running window counts (`end_context`). Those
  counts cut the flat list of per-window model outputs back into one group
  per article.
- **The boundary arithmetic and the answer mean** (`Aggregation`): running
  sums, the `zip([0] + end[:-1], end)` regrouping (exclusive and inclusive
  end), and the element-wise mean of no/yes/neutral probability vectors
  shown in percent.
- **The served entry points** (`ApiScienceQA`):
  - the highlight pattern (the substitution that applies it is a parameter);
  - the article table of `instanciate`, a class whose `question` and
    `terms` columns are assigned in place, with `iloc` slicing;
  - the per-article records of `predict_sqa`;
  - the pagination of `main_sqa`.
- **The command-line pipelines** (`MainPipelines`): the question parser
  `extract_q`, the title deduplication of `gathering`, and the record
  assembly of the abstractive, extractive and boolean-only pipelines.
- **The non-neural model code** (`Modeling`):
  - the chunking loop of `AbstractiveQA.batch_generate`, a method with a
    loop proved against its specification function;
  - the list wrapping of `BaseInterpret.predict`;
  - the model path normalisation.
- **The quantities helpers** (`Quantities`): the interval clean-up
  `translate`, an imperative loop over three rewrites, and the
  nearest-label grouping of `findnear`, whose loops build the match list and
  the `groups` dictionary.
- **The front-end text utilities** (`FrontUtils`): the keyword extraction
  between highlight tags, done by `while` loops pushing onto a list; the
  closing of unclosed `<span>` tags; and the citation label.
- **The Python and JavaScript built-ins** these rely on (`PyLib`): `range`,
  slicing with Python's index rules, substring search, `join`/`split`, the
  collapsing of runs of one character, pandas label lookup and
  order-preserving deduplication.

How the outside world enters the model:

- Tokenizers, the sentence splitter, the models' `generate`/`predict`, and
  `re.sub`/`re.findall` are function-typed parameters (see `ApiScienceQA.Models`
  and `MainPipelines.MainModels`).
- The article search and the Elasticsearch connection are parameters too:
  the search results are given as a sequence.
- Errors the source raises (a missing `sep_token`, an empty `path`, a
  `KeyError` on an index label, `repeat` with a negative count, the
  `TypeError` of comparing against a `None`) are `Err` values of
  `PyLib.Result`.

Some behaviours of the code are modelled as written and stated as
properties rather than repaired:

- `to_predict_abstractive_dataset` passes `True` as the mode, which renders
  the windows in boolean form with the boolean separator
  (`ApiSampler.AbstractivePredictUsesBooleanFormat`).
- The sampler's regrouping slices `decoded[start:end + 1]`, so the
  classifier input of every article but the last also holds the first
  output of the next article (`ApiSampler.FromAbsSpec`,
  `ApiSampler.FromExtSpec`). The responses shown to the user use the
  exclusive `[start:end]` (`MainPipelines.AbstractiveResponsesSpec`,
  `ApiScienceQA.TermsSpec`).
- In the served span search, the branch `len(c) - start - 1` is never
  taken, because a match always fits in its context (`ApiSampler.RowForSpec`).
- With a close tag missing, JavaScript's `slice(start, -1)` cuts one
  character before the end of the text, and the next close-tag search
  restarts at 0. `FrontUtils.MissingCloseTag` shows it for the open tag
  followed by any non-empty text without `<`.
- `completeHTML` can count a dangling `<span` as an open tag once its own
  appended `</span>` supplies the `>`, so its output can stay unbalanced
  (`FrontUtils.CompleteHTMLDanglingTag`).
- `findnear` stores a `None` for the first match of an interval whose
  preceding text is at least 9**9 characters long, and raises on the next
  comparison or on output (`Quantities.GroupedMissing`,
  `Quantities.FindNearOk`).
- An abstractive puller never reaches the `'aqa'` branch of `predict_sqa`:
  it is routed to the boolean-only path
  (`ApiScienceQA.AbstractivePullerIsBooleanOnly`).

## Model

| member | source | states |
|---|---|---|
| PyLib.Range | api/scienceqa/sampler.py:79 | `range(start, stop, step)` yields start + k * step for k = 0, 1, … . With a positive step every value is below stop and the next one would not be; with a negative step, the mirror image. |
| PyLib.RangeLength | api/scienceqa/modeling.py:83 | With a positive step the range has ceil((stop - start) / step) values, and none when stop <= start. |
| PyLib.Slice | api/scienceqa/sampler.py:78 | A Python slice with any integer bounds: negative bounds count from the end, bounds are clamped to the list, the length is the gap between the normalised bounds, and element k is the element at the normalised start plus k. |
| PyLib.FindFrom | api/scienceqa/sampler.py:107 | The substring search behind `in`, `split` and `indexOf`: a result is an occurrence at or after `from` with none before it, and no result means there is no occurrence from `from` on. |
| PyLib.JoinSplit | api/scienceqa/scienceqa.py:41 | Splitting on a non-empty separator and joining with the same separator gives the string back. |
| PyLib.JoinSplitChar | api/scienceqa/scienceqa.py:41 | Joining the pieces of a split on one character with a replacement text replaces every occurrence of that character by the replacement. |
| PyLib.LastPieceHasNoSeparator | scienceqa/main.py:138 | `s.split(sep)[-1]` never contains `sep`. |
| PyLib.CollapseRunsNoDoubled | api/scienceqa/sampler.py:125 | `re.sub('c+', 'c', s)` leaves no two consecutive copies of c and keeps a first character that is not c. |
| PyLib.CollapseRunsKeepsOthers | api/scienceqa/sampler.py:247 | Collapsing runs of c removes only copies of c: the other characters stay, in order. |
| PyLib.LabelLookup | api/scienceqa/scienceqa.py:295 | `series[label]` succeeds exactly when some row carries the label, and then returns the value of such a row; otherwise it is the KeyError. |
| PyLib.DedupByDistinct | api/scienceqa/scienceqa.py:134 | After `drop_duplicates([key])` no two elements share a key. |
| PyLib.DedupByKeys | api/scienceqa/scienceqa.py:134 | Deduplication loses no key and invents none. |
| PyLib.DedupByFirst | scienceqa/main.py:51 | Every element kept is the first element of the input with its key. |
| PyLib.DedupByOrder | api/scienceqa/scienceqa.py:134 | `drop_duplicates([key])` keeps the input order: the result is the subsequence of the input at strictly increasing positions, each the first position of its key. |
| PyLib.DedupSpec | src/front/src/utils/utils.js:40 | `[...new Set(xs)]` holds each element of xs exactly once and nothing else. |
| PyLib.DedupOrder | src/front/src/utils/utils.js:21 | `[...new Set(xs)]` lists the elements in order of their first occurrence in xs. |
| Aggregation.SumAppend | api/scienceqa/sampler.py:403 | The window total of two lists of articles is the sum of their totals. |
| Aggregation.CumsumSpec | api/scienceqa/sampler.py:403 | `end_context` entry i is the window count of article i plus those of all earlier articles; the entries never decrease and the last one is the total. |
| Aggregation.StartsSpec | api/scienceqa/sampler.py:358 | The group starts `[0] + end[:-1]`: group i starts at end[i - 1], the first at 0. |
| Aggregation.FlattenMember | api/scienceqa/sampler.py:405 | An element of the exploded list comes from one of the per-article lists, and every element of those lists is in it. |
| Aggregation.GroupsOfCumsum | scienceqa/main.py:88-90 | With the running window counts as ends, group i is exactly article i's own outputs: counts[i] elements after the outputs of the earlier articles. |
| Aggregation.GroupsPartition | api/scienceqa/scienceqa.py:279-280 | Cutting the flat output list by the running counts and concatenating the groups gives the flat list back: every output lands in exactly one group. |
| Aggregation.GroupsInclusiveOverlap | api/scienceqa/sampler.py:358-361 | The inclusive regrouping `[start:end + 1]` gives group i the exclusive group plus the next output whenever one exists. |
| Aggregation.GroupsInclusiveAtEnd | api/scienceqa/sampler.py:361 | A group ending at the end of the list is the same in both regroupings. |
| Aggregation.Mean | api/scienceqa/scienceqa.py:279 | `np.mean(group, axis=0)` is defined exactly for a non-empty group. |
| Aggregation.MeanSingle | api/scienceqa/scienceqa.py:279 | The mean of one vector is that vector. |
| Aggregation.TotalOfDistributions | api/scienceqa/scienceqa.py:279 | The component-wise sum of n probability vectors has non-negative components adding up to n. |
| Aggregation.MeanOfDistributions | api/scienceqa/scienceqa.py:279 | The mean of probability vectors is again a probability vector. |
| Aggregation.MeanExample | api/scienceqa/scienceqa.py:279-280 | Two windows [0.1, 0.8, 0.1] and [0.3, 0.6, 0.1] average to [0.2, 0.7, 0.1]. |
| Aggregation.ToPercentSpec | api/scienceqa/scienceqa.py:288-291 | The no/yes/neutral entries are components 0/1/2 times 100: dividing by 100 gives the vector back, and for a probability vector they are non-negative and add up to 100. |
| Aggregation.GroupAnswersSpec | scienceqa/main.py:171-176 | Article i is answered by the percent mean of its own windows' answers, with no answer for an article without windows; a one-window article gets its window's answer in percent. |
| Aggregation.MeanPercentOf | api/scienceqa/scienceqa.py:279-291 | The percent mean of a group is absent for an empty group and is the percent of the element for a one-element group. |
| ApiSampler.Get | api/scienceqa/sampler.py:43 | `kwargs.get(key, default)` is the given value when the key is present and the default otherwise. |
| ApiSampler.InitDefaults | api/scienceqa/sampler.py:43-53 | The window is 7 sentences every 3 with an extractive tokenizer and 10 every 10 without; explicit keywords always win; the lengths default to 300/80/250/250; the tokenizers are kept. |
| ApiSampler.WindowAt | api/scienceqa/sampler.py:76-80 | Window k starts at k * stride inside the sentence list and is the slice from there, `size` long and clamped at the end; with a positive size it is non-empty and holds at most `size` sentences. |
| ApiSampler.WindowCount | api/scienceqa/sampler.py:76-80 | N sentences give ceil(N / stride) windows, and none for N = 0. |
| ApiSampler.WindowNegativeStride | api/scienceqa/sampler.py:79 | A negative stride gives no window. |
| ApiSampler.WindowCovers | api/scienceqa/sampler.py:76-80 | When stride <= size, every sentence appears in some window at its offset from the window start. |
| ApiSampler.SeparatorSpec | api/scienceqa/sampler.py:86-89 | The separator is the abstractive tokenizer's `sep_token` for "abstractive" (an error when the tokenizer or its `sep_token` is missing), the extractive one's for "extractive" when present, and the boolean one's for any other mode (a KeyError without `sep_token`); the flag `True` behaves like "boolean". |
| ApiSampler.ToContextSpec | api/scienceqa/sampler.py:83-93 | `to_context` succeeds exactly when the separator exists; it gives one string per window: "question: Q SEP context: S" in abstractive mode and "Q SEP S" otherwise, S being the window's sentences joined by single spaces. |
| ApiSampler.AbstractivePredictUsesBooleanFormat | api/scienceqa/sampler.py:312 | The abstractive prediction dataset, which passes `True`, renders exactly what the boolean mode renders. |
| ApiSampler.UniqueSent | api/scienceqa/sampler.py:102-108 | `unique_sent` has no duplicates and holds exactly the input strings that are not a substring of a different input string. |
| ApiSampler.UniqueSentExample | api/scienceqa/sampler.py:102-108 | Of "diabetes", "type 2 diabetes" and "sugar", only "diabetes" is dropped. |
| ApiSampler.TrainContextNoDoubleDot | api/scienceqa/sampler.py:121-125 | The training context contains no "..". |
| ApiSampler.TrainContextKeepsText | api/scienceqa/sampler.py:121-125 | Collapsing the dots keeps every other character of the rendered window and separator, in order. |
| ApiSampler.TrainContextEnding | api/scienceqa/sampler.py:125 | With a separator that holds no '.', the training context ends with exactly "." followed by the separator. |
| ApiSampler.ExtractiveAnswerSpec | api/scienceqa/sampler.py:246-247 | The extractive training answer starts with one space, has no two consecutive spaces and keeps every other character of the answer in order. |
| ApiSampler.BooleanLabelsSpec | api/scienceqa/sampler.py:206-212 | A given non-empty label dict is accepted exactly when it has three entries; the default maps no/yes/neutral to 0/1/2; an answer missing from the labels gets 2. |
| ApiSampler.TrainingData.constructor | api/scienceqa/sampler.py:127-128 | A training table holds the question, context and answer columns it is given, and no formatted columns yet. |
| ApiSampler.TrainingData.ToTrainDataset | api/scienceqa/sampler.py:110-135 | `to_train_dataset` assigns `f_context` as one training context per row, with the separator the mode selects; it fails, changing nothing, when that separator is missing; no other column changes. |
| ApiSampler.TrainingData.SetBooleanAnswers | api/scienceqa/sampler.py:205-212 | The boolean `f_answer` column holds the label of each row's answer, unless the label dict is refused; no other column changes. |
| ApiSampler.TrainingData.SetExtractiveAnswers | api/scienceqa/sampler.py:244-249 | The extractive `f_answer` column holds each answer with one leading space and single spaces; no other column changes. |
| ApiSampler.RowForSpec | api/scienceqa/sampler.py:263-276 | A training row is kept exactly when the answer ids occur in the context ids at index 5 or later. A kept row starts at the first such index and ends at start + len(a), within the context, and its tokens are the answer's. |
| ApiSampler.RowForExamples | api/scienceqa/sampler.py:265-275 | An answer found at index 5 gives the row (5, 7); an answer found only at index 0 is dropped. |
| ApiSampler.SomesSpec | api/scienceqa/sampler.py:269-276 | The `indexes` list holds exactly the rows that were kept. |
| ApiSampler.SpanSearch | api/scienceqa/sampler.py:262-277 | The loop over `zip(context, answer)` appends exactly the kept rows, in order. |
| ApiSampler.Lengths | api/scienceqa/sampler.py:403 | The window counts `len(x.context)`, one per article. |
| ApiSampler.ContextsOf | api/scienceqa/sampler.py:402 | When every article renders, entry i is article i's rendered windows. |
| ApiSampler.PredictDatasetSpec | api/scienceqa/sampler.py:398-410 | The table branch fails exactly when rendering does. Otherwise `end_context` has one entry per article, ends at the total number of windows, and cutting the exploded window list by it gives back exactly each article's windows. |
| ApiSampler.FlattenAt | api/scienceqa/sampler.py:405 | In the exploded list, article i's windows sit right after those of the earlier articles. |
| ApiSampler.GroupsOfFlatten | api/scienceqa/sampler.py:403-405 | Cutting the exploded list at the running sums of the per-article lengths gives the per-article lists back. |
| ApiSampler.FromAbs | api/scienceqa/sampler.py:352-356 | The from_abs branch succeeds exactly when the abstractive tokenizer and its separator exist and the question and `end_context` are non-empty. |
| ApiSampler.FromExt | api/scienceqa/sampler.py:369-373 | The from_ext branch succeeds exactly when the question and `end_context` are non-empty and the extractive tokenizer and its separator exist. |
| ApiSampler.FromAbsSpec | api/scienceqa/sampler.py:352-367 | With the running window counts as `end_context`, input i joins article i's own generations and, for every article but the last, the first generation of the next article. |
| ApiSampler.FromExtSpec | api/scienceqa/sampler.py:386-395 | Likewise for from_ext, with `unique_sent` applied to the group of decoded spans. |
| ApiSampler.EndAfterRegroupSpec | api/scienceqa/sampler.py:367 | After regrouping, `end_context` is 1, 2, …, n - 1: one entry fewer than there are inputs. |
| ApiSampler.SelectSpans | api/scienceqa/sampler.py:383-384 | One selected span per context with a predicted start and end. |
| ApiSampler.SelectSpansSpec | api/scienceqa/sampler.py:383-384 | A predicted span is the tokens between its start and end when both lie in the context, and it is empty when the end is a valid index not after the start. |
| UtilsSampler.InitUtilsDefaults | scienceqa/utils/sampler.py:41-51 | The older defaults: lengths 512/80/512/300; 5 sentences every 2 with an extractive tokenizer and 10 every 10 without, so N sentences give ceil(N / 2) or ceil(N / 10) windows. |
| UtilsSampler.UtilsToContextSpec | scienceqa/utils/sampler.py:81-85 | One string per window, always "question: Q </s> context: S </s>", S being the window's sentences joined by spaces. |
| UtilsSampler.UtilsTrainMatchesPredict | scienceqa/utils/sampler.py:97-100 | The training context "question: q </s> context: c </s>" is laid out exactly like a one-window prediction context. |
| UtilsSampler.StripEndsSpec | scienceqa/utils/sampler.py:234 | `x[1:-1]` drops exactly the first and the last answer token. |
| UtilsSampler.UtilsRowForSpec | scienceqa/utils/sampler.py:237-246 | NumPy refuses the row exactly when the answer is more than one token longer than its context. Otherwise a row is kept exactly when the answer occurs anywhere in the context, starting at the first occurrence, with no minimum offset, and spanning the answer. |
| UtilsSampler.MinimumOffsetDiffers | scienceqa/utils/sampler.py:238-240 | An answer at index 0 is kept by the older search and dropped by the served one. |
| UtilsSampler.UtilsSpanSearch | scienceqa/utils/sampler.py:236-246 | The loop collects the kept rows, or stops with the error of the first refused row. |
| UtilsSampler.UtilsRowsErrStays | scienceqa/utils/sampler.py:238 | Once a row is refused the whole search fails with that error. |
| UtilsSampler.UtilsRowsSpec | scienceqa/utils/sampler.py:236-246 | The search succeeds exactly when no answer is more than one token longer than its context, and then keeps at most one row per pair. |
| UtilsSampler.UtilsFromAbsSpec | scienceqa/utils/sampler.py:324-328 | from_abs input i is "q </s> " and group `decoded[start:end + 1]` joined by spaces, the group starting at the previous entry of `end_context`. |
| UtilsSampler.UtilsFromExtSpec | scienceqa/utils/sampler.py:346-349 | from_ext input i is "q </s> " followed by the text after the last `</s>` of group `decoded[start:end + 1]` joined by spaces, the group starting at the previous entry of `end_context`; after the prefix it holds no `</s>`. |
| UtilsSampler.UtilsFromExtOwn | scienceqa/utils/sampler.py:346-349 | With the running window counts as `end_context`, from_ext input i is read off article i's own decoded spans and, for every article but the last, the first span of the next article. |
| UtilsSampler.ArticleContexts | scienceqa/utils/sampler.py:360 | Entry i is article i's windows in the fixed template. |
| UtilsSampler.UtilsPredictDatasetSpec | scienceqa/utils/sampler.py:356-368 | `end_context` has one entry per article, its last entry is the total number of windows, and article i's windows are the slice between consecutive entries. |
| UtilsSampler.UtilsUnknownAnswerNeutral | scienceqa/utils/sampler.py:180-186 | With the default labels an unknown answer maps to 2 (neutral). |
| Modeling.Chunks | api/scienceqa/modeling.py:83-85 | There is one chunk per offset of `range(0, stop, batch_size)`, and chunk k is `inputs[k * bs:k * bs + bs]`. |
| Modeling.GenerateEach | api/scienceqa/modeling.py:85-86 | `generate` is called once per chunk, in chunk order. |
| Modeling.BatchGenerate | api/scienceqa/modeling.py:73-91 | The loop returns the concatenated generations of the chunks at offsets below `len(inputs) - 1`. |
| Modeling.ChunksSpec | api/scienceqa/modeling.py:83-85 | With a positive batch size every chunk is non-empty, starts at row k * bs and holds at most bs rows. |
| Modeling.FlattenChunks | api/scienceqa/modeling.py:88-90 | The chunks up to `stop` concatenate to the first min(n, bs * ceil(stop / bs)) rows. |
| PyLib.Map | api/scienceqa/scienceqa.py:40-41 | `list(map(f, xs))`: the result has one element per input element, and element i is f of element i. |
| Modeling.FlattenGenerateEach | scienceqa/utils/modeling.py:105-107 | For a generator that treats each row on its own, generating chunk by chunk and concatenating is generating the concatenation. |
| Modeling.BatchGenerateCoverage | api/scienceqa/modeling.py:82-83 | `batch_generate` as written returns the generations of the first min(n, bs * ceil((n - 1) / bs)) rows, which is n - 1 when bs divides n - 1 and n otherwise. |
| Modeling.BatchGenerateOneRow | scienceqa/utils/modeling.py:99-100 | For one input row no chunk is generated and the result is empty. |
| Modeling.BatchGenerateDropsLast | scienceqa/utils/modeling.py:99-100 | Three rows in batches of two: the third row is never generated. |
| Modeling.GenerateAllSpec | api/scienceqa/modeling.py:73-91 | The corrected loop, with offsets up to `len(inputs)`, generates every row, in order. |
| Modeling.Items | api/scienceqa/modeling.py:120 | A single input becomes a one-element list and a list is kept. |
| Modeling.InterpretPredict | api/scienceqa/modeling.py:119-121 | `predict` gives one output per item. |
| Modeling.InterpretPredictSpec | api/scienceqa/modeling.py:119-121 | A single input is predicted as the list holding it; a list gets output i from item i, in order. |
| Modeling.NormalizePath | api/scienceqa/modeling.py:102 | Normalisation fails exactly on the empty path, where `path[-1]` raises, and otherwise ends with '/'. |
| Modeling.NormalizePathSpec | api/scienceqa/modeling.py:102 | The normalised path is the path itself when it ends with '/', and the path plus one '/' otherwise; normalising again changes nothing. |
| Modeling.ModelFile | api/scienceqa/modeling.py:103 | The interpreter loads "tf_model.tflite" inside the normalised directory, for any non-empty path. |
| Quantities.Translate | api/quantities/quantities.py:45-53 | The loop applies the three rewrites in list order. |
| Quantities.SubHyphensClean | api/quantities/quantities.py:49 | After the hyphen rewrite no hyphen is left between two digits. |
| Quantities.SubHyphensNone | api/quantities/quantities.py:49 | Without a hyphen between digits, the hyphen rewrite changes nothing. |
| Quantities.TranslateSpec | api/quantities/quantities.py:45-53 | The middle dots are replaced first, then the en dashes, then the hyphens between digits. The result holds no middle dot, no en dash and no hyphen between two digits, including the hyphens that came from en dashes. |
| Quantities.TranslateIdempotent | api/quantities/quantities.py:45-53 | Cleaning an already cleaned sentence changes nothing. |
| Quantities.TranslateExample | api/quantities/quantities.py:46-52 | "1·2–3·4" becomes "1.2 to 3.4". |
| Quantities.Step | api/quantities/quantities.py:176-177 | One step of the grouping loop keeps the dictionary well formed: its insertion order lists each of its keys once. |
| Quantities.Emit | api/quantities/quantities.py:178 | The output succeeds exactly when every stored value is a label, and then lists one `(label, min, max)` per key in insertion order. |
| Quantities.GroupedErrStays | api/quantities/quantities.py:175-177 | An error in the loop on a prefix of the matches is the error of the whole loop. |
| Quantities.FindNear | api/quantities/quantities.py:168-179 | `findnear` returns the listing of the grouping of the matches of all labels, in label order. |
| Quantities.CollectMatches | api/quantities/quantities.py:172-174 | The `matches` list is the concatenation of every label's matches, in label order. |
| Quantities.GroupMatches | api/quantities/quantities.py:175-177 | The grouping loop builds the dictionary of the matches, or stops with the TypeError of comparing against a None. |
| Quantities.GroupedKeys | api/quantities/quantities.py:175-177 | The dictionary holds exactly the intervals of the matches. |
| Quantities.GroupedOrder | api/quantities/quantities.py:175-178 | The keys are in order of first appearance. |
| Quantities.GroupedNearest | api/quantities/quantities.py:176-177 | Each kept label has the shortest preceding text for its interval, and on a tie it is the first such match. |
| Quantities.GroupedAllKept | api/quantities/quantities.py:176-177 | When every interval's first match is nearer than 9**9, the loop succeeds and stores a label for every interval. |
| Quantities.GroupedMissing | api/quantities/quantities.py:177 | A first match whose preceding text is 9**9 or longer leaves a None for its interval, or the loop has already failed. |
| Quantities.FindNearOk | api/quantities/quantities.py:175-178 | `findnear` returns exactly when every interval's first match is nearer than 9**9. |
| Quantities.FindNearOrder | api/quantities/quantities.py:178 | A successful `findnear` lists each interval once, in order of first appearance. |
| Quantities.FindNearSpec | api/quantities/quantities.py:168-179 | A successful `findnear` gives one `(label, min, max)` per interval, in order of first appearance, with the nearest label (the first of the nearest on a tie). |
| FrontUtils.IndexOf | src/front/src/utils/utils.js:12 | `indexOf` returns -1 or an occurrence at or after `from`; the empty string is found at `from`, clamped to the length. |
| FrontUtils.IndexOfSpec | src/front/src/utils/utils.js:32-33 | -1 means no occurrence from `from` on; any other result is the first occurrence there. |
| FrontUtils.PushCandidates | src/front/src/utils/utils.js:32-38 | The `while` loop appends to `keywords` the text between each open tag and its close tag, in order. |
| FrontUtils.FilterTextTitleByTag | src/front/src/utils/utils.js:25-41 | `filterTextTitleByTag` returns the deduplicated keywords of its text. |
| FrontUtils.FilterTextKeywordsByTag | src/front/src/utils/utils.js:1-22 | A string is handed to `filterTextTitleByTag`; an array's per-element keywords go into one list, which is deduplicated. |
| FrontUtils.TextCandidatesCount | src/front/src/utils/utils.js:34-37 | One keyword is pushed per occurrence of the open tag. |
| FrontUtils.NoOpenTagNoKeywords | src/front/src/utils/utils.js:32-34 | A text without the open tag yields no keywords. |
| FrontUtils.KeywordsSpec | src/front/src/utils/utils.js:40 | The result holds every pushed keyword once and nothing else, in order of first occurrence. |
| FrontUtils.ItemsCandidatesFlatten | src/front/src/utils/utils.js:11-20 | The keywords pushed for an array are those of its elements, in turn. |
| FrontUtils.KeywordsOfArraySpec | src/front/src/utils/utils.js:11-21 | On an array the result holds every keyword of every element exactly once. |
| FrontUtils.KeywordsOfSingleton | src/front/src/utils/utils.js:8-21 | An array of one string gives the keywords of that string. |
| FrontUtils.DefaultDelimiters | src/front/src/utils/utils.js:27-28 | The default tags start with '<', hold it nowhere else, and neither is a prefix of the other. |
| FrontUtils.TaggedRoundTrip | src/front/src/utils/utils.js:32-38 | In a text made of `open + k + close` triples, with keywords free of the tags' first character, the loop pushes exactly the keywords, in order. |
| FrontUtils.FilterTaggedText | src/front/src/utils/utils.js:25-41 | With distinct keywords, `filterTextTitleByTag` on such a text returns exactly those keywords. |
| FrontUtils.MissingCloseTag | src/front/src/utils/utils.js:33-35 | The default open tag followed by a non-empty text w holding no `<` yields the one keyword w without its last character. |
| FrontUtils.MissingCloseTagSugar | src/front/src/utils/utils.js:33-35 | For instance `<span class='hglt'>sugar` yields the one keyword `suga`. |
| FrontUtils.Repeat | src/front/src/utils/utils.js:66 | `s.repeat(k)` is k times as long as s. |
| FrontUtils.CloseSpanCountRepeat | src/front/src/utils/utils.js:66-67 | Appending k close tags adds exactly k matches of `</span>`. |
| FrontUtils.CompleteHTMLSpec | src/front/src/utils/utils.js:57-68 | `completeHTML` succeeds exactly when there are no more close tags than open ones. It then appends the missing close tags, after which there are as many close tags as the input had open ones. A balanced input comes back unchanged. |
| FrontUtils.DanglingInput | src/front/src/utils/utils.js:58-59 | `<span><span` has one complete open tag and no close tag. |
| FrontUtils.DanglingOutput | src/front/src/utils/utils.js:58-59 | `<span><span</span>` has two open tags and one close tag. |
| FrontUtils.CompleteHTMLDanglingTag | src/front/src/utils/utils.js:57-68 | Completing `<span><span` gives `<span><span</span>`, which is still unbalanced. |
| FrontUtils.NatToStringRoundTrip | src/front/src/utils/utils.js:46 | A number's decimal digits read back as the number. |
| FrontUtils.IntToStringRoundTrip | src/front/src/utils/utils.js:46 | A number in a template literal has a leading '-' exactly when it is negative, digits elsewhere, and reads back as the number. |
| FrontUtils.RenderCitationsSpec | src/front/src/utils/utils.js:44-47 | The label is "Number of citations unknown" exactly for a value that is not a number or is -1. Otherwise it is the count, which reads back as the number, followed by " Citations". |
| ApiScienceQA.UnescapeEscape | api/scienceqa/scienceqa.py:40 | Escaping loses nothing: the escaped term reads back as the term. |
| ApiScienceQA.EscapeMarksMeta | api/scienceqa/scienceqa.py:40 | Every '.', '(' and ')' left in an escaped term is preceded by a backslash. |
| ApiScienceQA.TermPatternSpec | api/scienceqa/scienceqa.py:40-41 | Every space of the escaped term becomes `(?:\s*)?`, so no literal space is left and no vertical bar is introduced. |
| ApiScienceQA.PatternSpec | api/scienceqa/scienceqa.py:42-43 | The pattern is one capture group whose alternatives, split at the vertical bar, are exactly the term patterns, one per term and in order. |
| ApiScienceQA.InstanciateDistinctTitles | api/scienceqa/scienceqa.py:130-137 | No two rows of the article table share a title. |
| ApiScienceQA.InstanciateKeepsFirst | api/scienceqa/scienceqa.py:134 | Every row is the row of the first article with its title. |
| ApiScienceQA.InstanciateOrder | api/scienceqa/scienceqa.py:134 | The rows keep the input order: row i is the row of the article at position idx[i], the positions strictly increase, and each is the first position of its title. |
| ApiScienceQA.InstanciateKeepsTitles | api/scienceqa/scienceqa.py:134 | Every article's title has a row. |
| ApiScienceQA.WithQuestion | api/scienceqa/scienceqa.py:138 | Every row gets the question. |
| ApiScienceQA.Articles.Contents | api/scienceqa/scienceqa.py:168 | The sampler's view of the table has one article per row. |
| ApiScienceQA.Articles.constructor | api/scienceqa/scienceqa.py:135 | A new table is indexed 0, 1, … and has no question or terms column. |
| ApiScienceQA.Articles.SetQuestion | api/scienceqa/scienceqa.py:138 | `articles['question'] = question` gives every row the question, adds the column once, and changes nothing else. |
| ApiScienceQA.Articles.SetTerms | api/scienceqa/scienceqa.py:198 | `articles['terms'] = terms` stores one list per row, adds the column once, and changes nothing else. |
| ApiScienceQA.Articles.ILoc | api/scienceqa/scienceqa.py:337 | `iloc[lo:hi]` keeps the rows at positions lo..hi together with their index labels and columns. |
| ApiScienceQA.Articles.Copy | api/scienceqa/scienceqa.py:337 | A table built from given columns, labels and rows holds exactly them. |
| ApiScienceQA.Instanciate | api/scienceqa/scienceqa.py:117-143 | `instanciate` gives the deduplicated rows, indexed 0, 1, …, each with the question "Does first relation second?". The columns are fixed, with `question` after `URL`, or before it in the empty table. |
| ApiScienceQA.ExtractorOf | api/scienceqa/scienceqa.py:172-174 | The extractor is 'eqa' exactly for an extractive or quantised puller, and none exactly without a puller. |
| ApiScienceQA.EqaRun | api/scienceqa/scienceqa.py:176-192 | The extractive data has one `end_context` entry per article. |
| ApiScienceQA.TermsSpec | api/scienceqa/scienceqa.py:194-197 | Article i's highlight terms come from its own spans only (exclusive end); they have no duplicates and no span contained in another of its spans. |
| ApiScienceQA.EqaRecords | api/scienceqa/scienceqa.py:213-223 | There is one record per article, carrying article i's fields and answer i; fewer answers than articles raise. |
| ApiScienceQA.BooleanRecords | api/scienceqa/scienceqa.py:293-302 | The corrected boolean-only records: record i carries article i's id and title and answer i. |
| ApiScienceQA.BooleanRecordsAsWritten | api/scienceqa/scienceqa.py:293-302 | The records as written, read by index label i, succeed exactly when every position 0..n-1 is also a label. |
| ApiScienceQA.BooleanRecordsFrom | api/scienceqa/scienceqa.py:295-299 | From position i on, the label lookups succeed exactly when every later position is a label; each record then carries the row found under that label and the answer at that position. |
| ApiScienceQA.BooleanRecordsByLabel | api/scienceqa/scienceqa.py:295-299 | With the labels of a slice starting at position lo, the lookup by label succeeds exactly when lo is 0, and then it agrees with the positional records. |
| ApiScienceQA.BooleanSecondPageFails | api/scienceqa/scienceqa.py:295 | The second page of one article raises a KeyError. |
| ApiScienceQA.BooleanPathRecords | api/scienceqa/scienceqa.py:274-302 | The boolean-only path gives one record per article, carrying that article's own fields and the question. |
| ApiScienceQA.BooleanPathAnswer | api/scienceqa/scienceqa.py:279-280 | When the classifier answers every window, article i gets the percent mean of exactly its own windows' answers. |
| ApiScienceQA.GroupAnswersOfFlatten | api/scienceqa/scienceqa.py:279-280 | With answers for the exploded windows, group i is the percent mean of article i's own answers. |
| ApiScienceQA.AbstractivePullerIsBooleanOnly | api/scienceqa/scienceqa.py:173-174 | An abstractive puller gets exactly the boolean-only records, as no puller does. |
| ApiScienceQA.EqaPathSpec | api/scienceqa/scienceqa.py:176-223 | The extractive path succeeds exactly when every article has an answer. Record i then carries article i's fields and URL, its context highlighted with its own terms, and the percent of its answer. |
| ApiScienceQA.PredictSqa | api/scienceqa/scienceqa.py:146-304 | `predict_sqa` returns the records of its extractor's path for the table's rows. A successful extractive run sets `terms` to each article's unique spans and adds the `terms` column once. Every other run leaves `terms` and the columns as they were, and no run changes rows, labels or questions. |
| ApiScienceQA.PageSpec | api/scienceqa/scienceqa.py:337 | Page p (from 1) holds the rows at positions limit * (p - 1) up to limit * p, cut at the end; page 0 and the pages past the end are empty. |
| ApiScienceQA.PagesAdjacent | api/scienceqa/scienceqa.py:337 | Page p followed by page p + 1 is the run of rows from the start of page p to the end of page p + 1. |
| ApiScienceQA.MainSqa | api/scienceqa/scienceqa.py:307-341 | `main_sqa` takes page `page` of `limit` rows (defaults 1 and 100) of the search results; it returns no record for an empty page and the records of `predict_sqa` otherwise. |
| MainPipelines.RunEndSpec | scienceqa/main.py:38 | Every character the run `\w+` takes from a position on is a word character. |
| MainPipelines.LineEndSpec | scienceqa/main.py:38 | Every character the run `.*` takes from a position on is not a newline. |
| MainPipelines.RelationAtSome | scienceqa/main.py:38 | The alternative found is one of the relation words, with a space on each side, at that position. |
| MainPipelines.RelationAtNone | scienceqa/main.py:38 | No alternative matches exactly when no padded relation word occurs there. |
| MainPipelines.LastMarkSpec | scienceqa/main.py:38 | The greedy `.*\?` ends at the last '?' of the stretch, and finds no end exactly when the stretch has no '?'. |
| MainPipelines.FirstMatchSound | scienceqa/main.py:39 | The leftmost match is made of a first term, a padded relation word, a second term and a '?'. |
| MainPipelines.ExtractQSound | scienceqa/main.py:34-39 | Whatever `extract_q` returns is read off the question in that shape. |
| MainPipelines.ExtractQuestionRoundTrip | scienceqa/main.py:38-39 | `extract_q` reads back the two terms of the question `instanciate` asks, for terms that start with a word character, stay on one line, and a second term without a relation word. |
| MainPipelines.ExtractQExample | scienceqa/main.py:201 | "Does sugar increase diabetes?" gives ("sugar", "diabetes"). |
| MainPipelines.NoRelationNoMatch | scienceqa/main.py:39 | A question without a relation word between spaces raises. |
| MainPipelines.GatheredSpec | scienceqa/main.py:48-52 | Each kept article keeps its original position as label, and the labels strictly increase; with distinct titles nothing is dropped and the labels are 0, 1, …. |
| MainPipelines.Records | scienceqa/main.py:96-102 | Record i pairs article i's id and title with response i and answer i in percent; fewer answers than articles raise. |
| MainPipelines.AbstractiveResponsesSpec | scienceqa/main.py:88-90 | With the running window counts, response i joins with spaces exactly the generations of article i's own windows. |
| MainPipelines.ExtractiveResponsesSpec | scienceqa/main.py:137-139 | Extractive response i is the text after the last `</s>` of article i's own spans joined by spaces, so it holds no `</s>`. |
| MainPipelines.AbstractivePipelineSpec | scienceqa/main.py:57-104 | The abstractive pipeline fails on an empty question or without articles; when it succeeds there is one record per article. |
| MainPipelines.OwnWindows | scienceqa/utils/sampler.py:282-285 | In the exploded window list, article i's windows sit between the running counts before it and up to it. |
| MainPipelines.Generations | scienceqa/main.py:87 | The decoded generation of each window on its own. |
| MainPipelines.DecodedGenerations | scienceqa/main.py:71-76 | For a row-wise generator, the decoded batched generations are those of each window on its own. |
| MainPipelines.AbstractiveResponseOfArticle | scienceqa/main.py:87-90 | Response i joins the generations of exactly article i's windows. |
| MainPipelines.AbstractiveRecordAt | scienceqa/main.py:96-102 | Record i of the abstractive pipeline carries article i's id and title and response i. |
| MainPipelines.AbstractivePipelineRecords | scienceqa/main.py:70-102 | For a row-wise generator, record i carries the question, article i's id and title, and the generations of exactly article i's windows joined by spaces. |
| MainPipelines.ExtractivePipelineRecords | scienceqa/main.py:144-150 | Record i of the extractive pipeline carries article i's id and title and a response without `</s>`. |
| MainPipelines.ExtractiveResponseOfArticle | scienceqa/main.py:136-139 | Extractive response i is the last piece of the decoded spans of article i's own windows. |
| MainPipelines.ExtractivePipelineResponse | scienceqa/main.py:121-150 | When the extractive model gives a span for every window, the response of record i is the last piece of article i's own decoded spans joined by spaces. |
| MainPipelines.BooleanRecordsAsWritten | scienceqa/main.py:177-182 | The records as written, read by index label, succeed exactly when every position is also a label. |
| MainPipelines.BooleanRecords | scienceqa/main.py:177-182 | The corrected records: record i carries article i's id and title and answer i. |
| MainPipelines.DuplicateTitleFails | scienceqa/main.py:179-180 | Two results with one title, then a third: the label of the dropped duplicate is missing and the records as written raise. |
| MainPipelines.BooleanPipeline | scienceqa/main.py:155-184 | The boolean pipeline gives one record per article. |
| MainPipelines.BooleanPipelineSpec | scienceqa/main.py:167-182 | When the classifier answers every window, article i gets its own id and title and the percent mean of exactly its own windows' answers. |

## Left out

- Neural models, training steps, distillation and quantisation are not modelled. `generate`, `predict` and the classifier are opaque functions.
- Tokenizers and sentence splitting are given as functions. `batch_encode_plus` truncation, padding and tensor shapes are not modelled.
- The regular-expression engine is not modelled. `re.sub` in `highlight` and `re.findall` in `findnear` are parameters. `extract_q` is written out for its one pattern, on ASCII `\w`; Unicode word characters and the `re.I` flag are not modelled.
- `\d` in `translate` is ASCII digits only; Unicode digits are not modelled.
- `round(x * 100, 2)` is not modelled: answers are reals times 100, with no rounding and no floating point.
- The boolean-only `interpret` branch of `predict_sqa` (api/scienceqa/scienceqa.py:282-286) is not modelled. It iterates the per-window `answers` instead of the per-article `responses_bool`.
- The extractive `interpret` branch (api/scienceqa/scienceqa.py:201-205) differs from lines 206-210 only in the shape it reads a score from (`r[0][0]` instead of `r`). Both are per article. The classifier is a parameter, so ApiScienceQA.EqaRecords' per-article `ToPercent(d.answers[i])` covers both.
- The `'aqa'` branch of `predict_sqa` (api/scienceqa/scienceqa.py:225-272) is unreachable and refers to undefined names. Only its unreachability is stated.
- NumPy's mean over an article without windows (NaN) is an absent answer; pandas `explode` of an empty window list (one NaN row) is not modelled.
- Search and retrieval are parameters: `get_terms_articles`, `get_article`, `connect_to_cluster`.
- The TF Lite model file is not loaded; only its path is computed.
- Progress `print` calls are not modelled.
- Shuffling, batching and prefetching of the training datasets are not modelled.
- `to_predict_dataset`'s type assertions are not modelled.
- The `from_interpret` reshaping of the extractive outputs is not modelled.
- ApiSampler.SpanSearch and UtilsSampler.UtilsSpanSearch take row i's `f_context` by position. The source reads `data.loc[idx, 'f_context']` (api/scienceqa/sampler.py:272, scienceqa/utils/sampler.py:242), which is a lookup by index label. The two agree only when the training table carries the default index 0, 1, …, which the model assumes. A table whose index is not 0, 1, … is not modelled: there the source raises a KeyError or takes another row's `f_context`.
- scienceqa/utils/sampler.py:225-238 zips over a `BatchEncoding` (its keys). The model follows the evidently intended per-row search, over the `input_ids` lists given as input.
- The other functions of api/quantities/quantities.py (the grobid client, `html_clean`, the table merges) are not part of this model.
- `isArray`, `isObject` and the local-storage helpers of utils.js are not part of this model.
- FrontUtils: strings are sequences of Unicode scalar values. JavaScript strings are UTF-16 code units, and `indexOf`, `length` and `slice` count code units. Positions counted in code units and the lone surrogates `slice` can produce are not modelled: on `<span class='hglt'>a😀` the source yields `a\uD83D`, and the model's character-based cut yields `a`.
- FrontUtils.FilterTextTitleByTag requires a non-empty open tag. With an empty one, JavaScript's loop never ends.
- FrontUtils.FilterTextKeywordsByTag takes a string or an array of strings. Other JavaScript values are not modelled.
- FrontUtils.RenderCitations takes an integer, or a value for which `isNaN` holds. Non-integer numbers, JavaScript's exponent form for integers of magnitude 1e21 or more, and the coercion of other values are not modelled.
- FrontUtils.CompleteHTML models the `RangeError` of a negative `repeat` as an error, without its exact message.
- ApiSampler.Window requires a non-zero stride, where Python's `range` raises `ValueError`. Every member built on it carries the same requirement.
- ApiSampler.UniqueSent: the source returns `list(set(...))`, whose order depends on string hashing. The model returns one fixed order, and its contract states only the contents and the absence of duplicates.
- MainPipelines.AbstractivePipeline uses the corrected `batch_generate` (Modeling.GenerateAll). The as-written loop is modelled by Modeling.BatchGenerate and its drop is stated there.
- ApiScienceQA.PredictSqa and MainPipelines.BooleanPipeline build the boolean-only records by position. The as-written lookup by index label is modelled beside them, with the inputs that make it fail (see Findings).

## Findings

| source | as written | input that shows it | evidently intended | confidence | as-written member | corrected member |
|---|---|---|---|---|---|---|
| api/scienceqa/modeling.py:82-83 | Chunk offsets run over `range(0, len(inputs) - 1, batch_size)` (the same at scienceqa/utils/modeling.py:99-100). | Three windows in batches of two: only the first two are generated. One window gives no generation at all. | Every input row is generated, in order. | not executed | Modeling.BatchGenerateDropsLast | Modeling.GenerateAllSpec |
| api/scienceqa/scienceqa.py:295-299 | Boolean-only records read `articles.id[i]` and the other columns by index label i, after `main_sqa`'s `iloc` kept the labels of the page. | `main_sqa` on two articles with `limit=1, page=2`: the page has label 1 only, and looking up label 0 raises KeyError. | Record i is built from row i by position. | not executed | ApiScienceQA.BooleanSecondPageFails | ApiScienceQA.BooleanPathRecords |
| scienceqa/main.py:179-180 | `boolean_pipeline` reads `articles.id[i]` by label, after `drop_duplicates(['title'])` without `reset_index`. | Three search results, the first two with one title: the labels are 0 and 2, and looking up label 1 raises KeyError. | Record i is built from row i by position. | not executed | MainPipelines.DuplicateTitleFails | MainPipelines.BooleanPipelineSpec |
