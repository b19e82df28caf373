# Omnipedia core, modelled in Dafny

Omnipedia turns a Wikipedia style guide into a list of requirements and then
scores an article against them. This project models the deterministic parts
of that process, meaning everything around the language-model calls:

- **Splitting a style guide into chunks** (`Chunker`). Paragraphs are packed
  greedily into chunks of at most 6000 characters (2000 in the older
  extractor). Each paragraph is followed by a blank line.
- **The requirements document and its `update` merge** (`Requirements`,
  `Keyed`).
  - Groups are matched by category.
  - Requirements are deduplicated by description, or by id in the older
    extractor.
  - The category set is taken once, when `update` begins. The description
    (or id) set of a group is taken when an incoming group is merged into it.
  - After extraction, every requirement is renumbered "1", "2", ….
- **The extraction pipeline** (`Extraction`, `Fences`). For each chunk:
  1. the model is asked;
  2. the answer is cleaned of code fences and stripped;
  3. it is parsed and merged;
  4. an answer that does not parse is logged and skipped.
- **The evaluation document and its `update` merge** (`Evaluation`).
  - Sections are matched by title.
  - Requirement evaluations are deduplicated by id.
  - Sentence evaluations are appended.
- **The three `process_article_sections` loops**:
  - the one that skips empty sections;
  - the one that asks about every section;
  - the index-tracking one, which cuts the article markdown into numbered
    sections and attaches indexed sentences to each.
- **The markdown helpers** (`Markdown`, `Text`):
  - the header-driven sectioniser, with contiguous indices;
  - its variant that numbers sections by header count;
  - the sentence splitter, on `(?<=[.!?])\s+`;
  - `MarkdownDocument.update`;
  - the wikitext converters.
- **The client's evaluation queries** (`ClientEval`):
  - lookups by section and sentence index;
  - aggregate and average scores;
  - the `uniqBy` requirement listings;
  - merging requirement details into evaluations;
  - converting the cached form, which may have null scores.
- **The extraction endpoint** (`Routes`):
  - which input is used, and when it counts as a URL;
  - the 422, 200 and 202 replies;
  - the record the background task stores.

The language model, the JSON parser, the store lookup, the URL fetcher and
the title extractor are parameters. A parameter that returns `None` stands for
a call that raised, or for text that does not parse.

The three copies of the evaluation `update` (`evaluate_index.py`, `e.py`,
`evaluate_sentence.py`) are the same code and are modelled once, as
`Evaluation.Update`. The two copies of `split_content` differ only in their
default bound, and are modelled once as `Chunker.SplitContent`.

Three behaviours of the code are easy to miss, and the model keeps all three:

- `split_content` emits a leading "" chunk when the first paragraph does not
  fit in the bound.
- The category set of the requirements merge, and the title set of the
  evaluation merge, are taken once, when `update` begins. Two incoming groups
  of one new category are therefore both appended, and so are two incoming
  sections with one new title. A merged document can then hold a category,
  or a title, twice. The description (or id) set of a group, section or
  article is instead taken afresh each time an incoming group or section is
  merged into it, so a second incoming group of a known category sees what
  the first one appended.
- `backend/prompts/extract/extract_deduped.py` imports only `BaseModel` from
  pydantic (line 1), yet uses `Field` (line 31) and `ValidationError`
  (line 262). As written, the module fails with a `NameError` when it is
  imported. Had the import succeeded, an answer that failed validation would
  end the run instead of being skipped, because evaluating the `except` tuple
  raises. The model follows the evidently intended behaviour: an answer that
  does not parse or validate is skipped.

## Model

| member | source | states |
|---|---|---|
| Chunker.SplitContent | backend/prompts/extract/extract_deduped.py:201-224 | The chunks are the stripped, blank-line-joined packings of a grouping of the paragraphs. That grouping is the paragraphs, in order, with nothing lost. Each chunk was closed only because the next paragraph did not fit. A chunk exceeds the bound only when it holds a single paragraph. No paragraphs gives no chunks. A first paragraph that does not fit gives a leading "" chunk. |
| Requirements.FirstWith | backend/prompts/extract/extract_deduped.py:64-66 | Returns the position of the first group with the category; no earlier group has it. |
| Requirements.MergeGroup | backend/prompts/extract/extract_deduped.py:63-78 | The group keeps its category. Its description is replaced only by a non-empty incoming one. The existing requirements stay as a prefix. The appended part holds an incoming requirement exactly when its key was not in the group before the merge; `Requirements.MergeGroupOrder` fixes its order and multiplicity. |
| Requirements.MergeGroupOrder | backend/prompts/extract/extract_deduped.py:67-74 | The appended requirements are the incoming ones whose key the group lacked, in their incoming order and once per occurrence. |
| Requirements.MergeGroupAllFresh | backend/prompts/extract/extract_deduped.py:67-74 | When no incoming key is already present, the incoming requirements are appended whole, in order. |
| Requirements.MergeGroupIdempotent | backend/prompts/extract/extract_deduped.py:63-78 | Merging the same incoming group a second time changes nothing. |
| Requirements.MergeGroupSelf | backend/prompts/extract/extract_deduped.py:63-78 | Merging a group into itself leaves it as it was. |
| Requirements.UpdateShape | backend/prompts/extract/extract_deduped.py:54-80 | Existing groups keep their place and category and only gain requirements at the end. Only the first group of an incoming category changes. Incoming groups of categories not present at the start are appended whole, in order. |
| Requirements.Update | backend/prompts/extract/extract_deduped.py:54-80 | No category present before the update is lost. |
| Requirements.UpdateTouched | backend/prompts/extract/extract_deduped.py:54-80 | For any incoming document, the first group of each category present at the start ends up as itself with every incoming group of that category merged in, one after another in incoming order (a left fold of the group merge). |
| Requirements.UpdateTouchedOnce | backend/prompts/extract/extract_deduped.py:62-78 | When the incoming groups have distinct categories, each incoming group of a known category is merged, alone, into the first group of that category. |
| Requirements.MergeAllOne | backend/prompts/extract/extract_deduped.py:62-78 | Folding in a list with a single group of the category is one group merge. |
| Requirements.UpdateOneNew | backend/prompts/extract/extract_deduped.py:58-61 | A single group of a new category is appended. |
| Requirements.UpdateOneKnown | backend/prompts/extract/extract_deduped.py:62-78 | A single group of a known category is merged into the first group of that category, and nothing else changes. |
| Requirements.UpdateTwiceNewCategory | backend/prompts/extract/extract_deduped.py:56-61 | The category set is a snapshot, so two incoming groups of the same new category are both appended. |
| Requirements.UpdateIdempotent | backend/prompts/extract/extract_deduped.py:54-80 | When the incoming document has one group per category, applying it twice equals applying it once. |
| Requirements.UpdateExtends | backend/prompts/extract/extract.py:29-54 | A merge never loses a group or a requirement. |
| Requirements.UpdateKeepsDistinctCategories | backend/prompts/extract/extract_deduped.py:54-80 | If both documents have one group per category, so does the merge. |
| Requirements.UpdateKeepsDistinctKeys | backend/prompts/extract/extract.py:43-48 | If no key repeats within a group of either document, none repeats after the merge. |
| Requirements.Renumber | backend/prompts/extract/extract_deduped.py:269-275 | Groups keep their description, category and size. The k-th requirement in reading order gets id str(k+1), with all its other fields unchanged. |
| Requirements.RenumberDistinctIds | backend/prompts/extract/extract_deduped.py:269-275 | After renumbering, no two requirements share an id. |
| Extraction.Step | backend/prompts/extract/extract_deduped.py:248-267 | An answer that does not parse leaves the document unchanged. An answer that parses is merged with the document update. Any answer keeps every group and requirement already there. |
| Extraction.RunChunksCompletes | backend/prompts/extract/extract_deduped.py:239-267 | If the model never raises, the loop runs to the end. |
| Extraction.RunChunksExtends | backend/prompts/extract/extract_deduped.py:239-267 | The result of the loop keeps everything of the starting document. |
| Extraction.RunChunksUnparsable | backend/prompts/extract/extract_deduped.py:251-267 | If no answer parses, the loop returns the document it started from. |
| Extraction.RunChunksKeepsDistinct | backend/prompts/extract/extract_deduped.py:239-267 | If every parsed answer has one group per category and no repeated key, the result has the same property. |
| Extraction.FoldChunks | backend/prompts/extract/extract_deduped.py:235-267 | The loop over the chunks, numbered from 1, computes the chunk fold; it completes whenever the model never raises. |
| Extraction.ProcessRequirements | backend/prompts/extract/extract_deduped.py:227-278 | Without a title there is no result. The chunks are a 6000-bound split of the paragraphs. The result is the fold renumbered, with ids "1".."n" in reading order. There is always a result when the model never raises. |
| Extraction.ProcessRequirementsBasic | backend/prompts/extract/extract.py:145-169 | The chunks are a 2000-bound split. The fold merges by id. There is a result whenever the model never raises. |
| Fences.Unfence | backend/utils/format.py:132-133 | After the replacements no code fence is left, and the result is stripped. |
| Fences.CleanOutput | backend/prompts/extract/extract_deduped.py:249 | The cleaned answer holds no code fence and is stripped. |
| Fences.UnfenceWrapped | backend/utils/format.py:132-133 | A body without backticks inside an opening fence and a closing fence comes out as the stripped body. |
| Fences.CleanOutputCases | backend/prompts/extract/extract.py:156 | A body in a json fence and an unfenced body clean to the same stripped body. |
| Text.StripSlice | backend/utils/split.py:66 | A stripped string is a contiguous slice of its input. It is empty exactly when the input is all whitespace. |
| Text.StripIdempotent | backend/utils/split.py:66 | Stripping twice is the same as stripping once. |
| Text.JoinSplit | backend/utils/split.py:17 | Joining the lines of a split gives back the text. |
| Text.SplitJoin | backend/utils/split.py:17 | Splitting a join of newline-free lines gives back the lines. |
| Text.RemoveFenceLeavesNone | backend/prompts/extract/extract_deduped.py:249 | Removing every "```" leaves none. Removal is left to right and non-overlapping, as str.replace does it. |
| Text.NatToStringInjective | backend/prompts/extract/extract_deduped.py:274 | Different numbers render as different decimal strings. |
| Keyed.AppendNew | backend/prompts/evaluate/evaluate_index.py:62-68 | The existing list stays as a prefix. The appended part holds an incoming item exactly when its key was absent before the loop. |
| Keyed.AppendNewOrder | backend/prompts/evaluate/evaluate_index.py:62-68 | The appended part is the incoming items whose key was absent before the loop, in incoming order and once per occurrence. |
| Keyed.UnseenCharacterised | backend/prompts/evaluate/evaluate_index.py:62-68 | The filtered list is the one and only subsequence of the incoming items, taken at increasing positions, whose positions are exactly those with an unseen key. |
| Keyed.PicksSame | backend/prompts/evaluate/evaluate_index.py:62-68 | Two subsequences taken at the same set of positions are equal. |
| Keyed.AppendNewIdempotent | backend/prompts/evaluate/evaluate_index.py:62-68 | Appending the same incoming list a second time adds nothing. |
| Keyed.AppendNewDistinct | backend/prompts/evaluate/evaluate_index.py:62-68 | With unique keys on both sides, the result has unique keys. |
| Markdown.Classify | backend/utils/split.py:21-41 | A header line has at least one '#' and a stripped title. |
| Markdown.ParseSections | backend/utils/split.py:6-57 | There is one section per header with a non-empty title, in header order, indexed 1, 2, … contiguously. Each section carries that header's title and level. Its content is the stripped text of the lines up to the next header. |
| Markdown.ParseSectionsCounted | backend/prompts/evaluate/evaluate_index.py:319-359 | Same sections, but each index is the header's position among all headers, titled or not. Indices strictly increase and stay within the header count. |
| Markdown.SectionisersAgree | backend/prompts/evaluate/evaluate_index.py:319-359 | Both sectionisers give the same titles and contents. The contiguous index never exceeds the header-count index. |
| Markdown.CountedSkipsUntitled | backend/prompts/evaluate/evaluate_index.py:331-341 | For "#\n# A", the counted index is 2 and the contiguous index is 1. |
| Markdown.SplitSentences | backend/utils/split.py:60-66 | Every sentence is non-empty and stripped. |
| Markdown.PiecesSpec | backend/utils/split.py:65 | The split pieces woven back with the whitespace runs they were cut at give back the text. Every cut follows '.', '!' or '?' and is a maximal whitespace run. No piece contains such a break. |
| Markdown.SentencesNoBreak | backend/utils/split.py:60-66 | A text with no break point and non-blank content is a single sentence, its stripped self. |
| Markdown.NumberingSpec | backend/prompts/evaluate/evaluate_index.py:362-372 | Each numbered sentence is the non-blank stripped piece at its index minus the start value. Every non-blank piece is numbered with its split position plus the start value. Blank pieces are dropped but keep their index, so the indices increase strictly and may skip. |
| Markdown.IndexedSentencesAgree | backend/prompts/evaluate/evaluate_index.py:362-372 | The indexed splitter yields the same sentence texts as the plain splitter. |
| Markdown.UpdateCompose | backend/utils/format.py:13-18 | Two appends equal one append of the concatenation; appending "" changes nothing. |
| Markdown.ConvertWikitext | backend/utils/format.py:126-143 | The converted markdown holds no code fence and is stripped. |
| Markdown.ConvertWikitextUnfences | backend/utils/format.py:130-140 | Conversion is the fence removal applied to the stripped answer; the document update and the final strip change nothing more. |
| Markdown.ConvertWikitextFenced | backend/utils/format.py:126-143 | An answer wrapped in a markdown fence converts to its stripped body. |
| Markdown.WikitextPrompt | backend/prompts/extract/format.py:8-18 | The prompt's lines are the task line and the "### Input Data:" header, separated by blank lines, followed by the wikitext's lines and a final empty line. |
| Markdown.ConvertWikitextSectionsCount | backend/prompts/extract/format.py:69-90 | There is one section more than the wikitext has titled headers. |
| Markdown.ConvertWikitextSectionsFirst | backend/prompts/extract/format.py:69-90 | The first section is always "Input Data:", level 3, index 1. |
| Markdown.ConvertWikitextSectionsPlain | backend/prompts/extract/format.py:69-90 | Wikitext without header lines becomes that single section. Its sentences are those of the stripped wikitext, or none if it is blank. |
| Evaluation.MergeSentences | backend/prompts/evaluate/evaluate_index.py:70-75 | Sentence evaluations are concatenated, never deduplicated. The list stays missing only when nothing arrives. |
| Evaluation.MergeSection | backend/prompts/evaluate/evaluate_index.py:59-75 | The section keeps its index, title and notes. An incoming requirement evaluation is appended exactly when its id was not already present. Its sentence evaluations gain all incoming ones. |
| Evaluation.MergeSectionOrder | backend/prompts/evaluate/evaluate_index.py:62-68 | The appended requirement evaluations are the incoming ones whose id the section lacked, in incoming order and once per occurrence. |
| Evaluation.MergeSectionTwice | backend/prompts/evaluate/e.py:50-85 | Merging the same section twice adds no requirement evaluations but repeats its sentence evaluations. |
| Evaluation.FirstTitled | backend/prompts/evaluate/evaluate_index.py:59-61 | Returns the position of the first section with the title. |
| Evaluation.MergeArticle | backend/prompts/evaluate/evaluate_index.py:77-87 | A missing side yields the other. Otherwise the article keeps its notes, and an incoming evaluation is appended exactly when its id is new. |
| Evaluation.MergeArticleOrder | backend/prompts/evaluate/evaluate_index.py:80-87 | When both sides are present, the appended evaluations are the incoming ones with a new id, in incoming order and once per occurrence. |
| Evaluation.MergeArticleIdempotent | backend/prompts/evaluate/evaluate_sentence.py:48-85 | Merging the same article evaluation twice is the same as once. |
| Evaluation.Update | backend/prompts/evaluate/evaluate_index.py:51-88 | Every title present before is still present, and no section is lost. |
| Evaluation.UpdateShape | backend/prompts/evaluate/evaluate_index.py:51-88 | Sections of new titles are appended whole, in order. Existing sections only grow. Only the first section with an incoming title changes. |
| Evaluation.UpdateTouched | backend/prompts/evaluate/evaluate_index.py:51-75 | For any incoming output, the first section of each title present at the start ends up as itself with every incoming section of that title merged in, one after another in incoming order. |
| Evaluation.UpdateTouchedOnce | backend/prompts/evaluate/evaluate_index.py:57-75 | When the incoming sections have distinct titles, each incoming section with a known title is merged, alone, into the first section with that title. |
| Evaluation.MergeAllTitledOne | backend/prompts/evaluate/evaluate_index.py:57-75 | Folding in a list with a single section of the title is one section merge. |
| Evaluation.UpdateOneNew | backend/prompts/evaluate/evaluate_index.py:55-56 | A section with a new title is appended. |
| Evaluation.UpdateOneKnown | backend/prompts/evaluate/evaluate_index.py:57-75 | A section with a known title is merged into the first section with that title. |
| Evaluation.UpdateTwiceNewTitle | backend/prompts/evaluate/evaluate_index.py:53-56 | The title set is a snapshot, so two incoming sections with the same new title are both appended. |
| Evaluation.UpdateRepeatsSentences | backend/prompts/evaluate/evaluate_index.py:70-75 | Applying the same update twice repeats its sentence evaluations, so update is not idempotent. |
| Evaluation.UpdateGrows | backend/prompts/evaluate/evaluate_index.py:51-88 | Every section, requirement evaluation and sentence evaluation already present is kept in place. |
| Evaluation.Step | backend/prompts/evaluate/evaluate_index.py:428-437 | An unparsable answer leaves the state unchanged. A parsed one is merged in. Either way nothing is lost. |
| Evaluation.RunCompletes | backend/prompts/evaluate/e.py:357-376 | If the model never raises, the loop runs to the end. |
| Evaluation.RunGrows | backend/prompts/evaluate/e.py:357-376 | The loop's result keeps everything of its start. |
| Evaluation.RunUnparsable | backend/prompts/evaluate/e.py:365-376 | If no answer parses, the loop returns its starting state. |
| Evaluation.RunAsked | backend/prompts/evaluate/e.py:357-376 | If the model never raises, it is asked about exactly the sections that are not skipped, once each, in order. |
| Evaluation.RunAllSkipped | backend/prompts/evaluate/e.py:358-360 | When every section is skipped, the model is never asked and the state is unchanged. |
| Evaluation.ProcessSections | backend/prompts/evaluate/e.py:344-378 | The loop over the sections, numbered from 1 and starting from an empty evaluation, computes the section fold. |
| Evaluation.EvaluateNonEmpty | backend/prompts/evaluate/e.py:344-378 | Sections without content are skipped. If the model never raises, it is asked about each non-empty section once, in order. |
| Evaluation.EvaluateAll | backend/prompts/evaluate/evaluate_sentence.py:312-340 | If the model never raises, it is asked about sections 1..n, each once. |
| Evaluation.AskedAll | backend/prompts/evaluate/evaluate_sentence.py:322-336 | With nothing skipped, the sections asked about are consecutive from the start value. |
| Evaluation.Prepare | backend/prompts/evaluate/evaluate_index.py:383-388 | A section's indexed sentences carry the same texts as the sentence splitter gives for its content, or none for empty content. For non-empty content, each sentence carries its split position counted from 1, and every non-blank piece is present. |
| Evaluation.EvaluateMarkdown | backend/prompts/evaluate/evaluate_index.py:409-440 | The markdown is cut into header-counted sections and each is prepared. If the model never raises, one question is asked per titled header. |
| ClientEval.FirstAt | client/lib/eval.ts:91 | `find`: none exactly when nothing matches; otherwise a matching position with no match before it. |
| ClientEval.GetSectionByIndex | client/lib/eval.ts:86-92 | Not found exactly when no section has the index. Otherwise it is the first section with that index. |
| ClientEval.GetSentenceByIndex | client/lib/eval.ts:101-113 | Not found when the section is missing. Otherwise it is the first sentence with the index in the first matching section, or none if no sentence there has it. |
| ClientEval.GetRequirementEvaluationForSentence | client/lib/eval.ts:123-133 | A missing sentence gives none. For a found sentence, the result is absent exactly when none of its evaluations has the requested id, and otherwise it is the first one that has it. |
| ClientEval.GetRequirementEvaluationsForSection | client/lib/eval.ts:142-169 | A missing section gives none. Otherwise the result holds exactly the section-level and sentence-level evaluations with the requested id. |
| ClientEval.SectionEvaluationsOrder | client/lib/eval.ts:153-166 | The section-level matches come first, then the sentence-level ones in sentence order. |
| ClientEval.GetSectionAggregateScore | client/lib/eval.ts:181-206 | A missing section scores 0. Otherwise the score is that section's aggregate: 0 with no evaluations, else their mean. |
| ClientEval.GetSentenceAggregateScore | client/lib/eval.ts:215-231 | A missing sentence or one without evaluations scores 0; otherwise the mean of its scores. |
| ClientEval.GetOverallArticleScore | client/lib/eval.ts:238-249 | No sections gives 0. Otherwise the result is the mean of the per-section aggregates, each looked up by that section's index. |
| ClientEval.OverallUsesOwnScores | client/lib/eval.ts:241-243 | When section indices are distinct, each term of the overall mean is the aggregate of its own section. |
| ClientEval.GetAverageScoreForRequirementInSection | client/lib/eval.ts:258-273 | The mean score of that requirement's evaluations in the section, or 0 if it has none there. |
| ClientEval.GetAverageScoreForRequirementInArticle | client/lib/eval.ts:281-306 | The mean score of the requirement over all section-level and sentence-level evaluations, or 0 if it has none. |
| ClientEval.MeanWithin | client/lib/eval.ts:202-205 | The mean of scores within bounds is within the same bounds. |
| ClientEval.AggregatesWithin | client/lib/eval.ts:181-306 | If every score lies in an interval containing 0, so do the section aggregate, the overall score and both requirement averages. |
| ClientEval.UniqFromSpec | client/lib/eval.ts:351 | `uniqBy` keeps exactly the first item of each key, in the order of the input, and no key twice. |
| ClientEval.UniqFromOrder | client/lib/eval.ts:351 | The kept items are the subsequence of the input taken at exactly the positions that hold the first item of an unseen key. |
| ClientEval.UniqFromCharacterised | client/lib/eval.ts:351 | `uniqBy` is the only list with that property. |
| ClientEval.UniqFromAppend | client/lib/eval.ts:342-351 | Deduplicating a concatenation is deduplicating the first part, then the second part minus the keys the first part used. |
| ClientEval.GetAllRequirementsForSentence | client/lib/eval.ts:319-326 | The sentence's own evaluations, or none when the sentence is missing. |
| ClientEval.GetAllRequirementsForSection | client/lib/eval.ts:334-352 | A missing section gives none. Otherwise the first evaluation of each requirement id among the section-level and then sentence-level evaluations, in that order. |
| ClientEval.GetAllRequirementsForArticle | client/lib/eval.ts:359-375 | The first evaluation of each requirement id across the article, its sections and their sentences, in traversal order. |
| ClientEval.GetAllRequirementsCover | client/lib/eval.ts:342-375 | Every requirement id evaluated anywhere in scope appears in the listing. |
| ClientEval.GetAllRequirementsForArticleOrder | client/lib/eval.ts:362-374 | Article-level evaluations come first. Section evaluations follow only for ids the article did not already list. |
| ClientEval.LastFound | client/lib/eval.ts:384-392 | None exactly when no group holds the id. Otherwise it is the first requirement with that id in the last group that holds one. |
| ClientEval.MergeRequirementWithEvaluation | client/lib/eval.ts:380-401 | The evaluation is kept. The description, reference, where and when come from the found requirement, or are "" when none is found. |
| ClientEval.MergeFromOnlyGroup | client/lib/eval.ts:387-400 | When a single requirement carries the id, its description and reference are the ones merged in. |
| ClientEval.GetEnhancedRequirementsForSection | client/lib/eval.ts:406-415 | One enhanced entry per listed evaluation, same order, evaluation kept. |
| ClientEval.GetEnhancedRequirementsForSentence | client/lib/eval.ts:420-434 | One enhanced entry per listed evaluation, same order, evaluation kept. |
| ClientEval.GetEnhancedRequirementsForArticle | client/lib/eval.ts:439-447 | One enhanced entry per listed evaluation, same order, evaluation kept. |
| ClientEval.Settle | client/lib/eval.ts:452-456 | A cached evaluation with both scores present becomes a scored evaluation with the same fields. |
| ClientEval.KeepValidFilters | client/lib/eval.ts:452-456 | Filtering with the type guard keeps exactly the cached evaluations with both score and confidence, unchanged, in order. |
| ClientEval.ValidKeepsAll | client/lib/eval.ts:452-456 | If every cached evaluation is valid, the filter keeps them all. |
| ClientEval.ConvertCacheToEvalData | client/lib/eval.ts:461-478 | Sections, sentences and their fields are kept one for one. At every level only the evaluations with both scores survive, in order. |
| Routes.InputContent | backend/routes/extract.py:30-36 | No input exactly when both fields are missing. Otherwise it is the url when given, else the content. |
| Routes.UrlInputChosen | backend/routes/extract.py:38-40 | A URL input always has a chosen input: the url field or a web address. |
| Routes.Extract | backend/routes/extract.py:43-84 | Without input the reply is 422. A URL input already stored gets 200 with the stored request id. Every other input gets 202 with the fresh id, and exactly one task is scheduled for it. |
| Routes.NewDocument | backend/models/requirements.py:6-12 | A record is built exactly when a title is supplied. |
| Routes.PersistedUrl | backend/routes/extract.py:96 | The recorded url is the chosen input when that input is a URL, and absent otherwise. |
| Routes.StyleGuideText | backend/routes/extract.py:98-111 | A URL input is fetched; other input is used as it stands. There is text exactly when the fetch succeeds with non-empty text, or when the content is non-empty. |
| Routes.Completed | backend/routes/extract.py:113-125 | The record of a successful run is "completed", under the request id, with the extraction's title and requirements and the persisted url. |
| Routes.ProcessAndSaveAsWritten | backend/routes/extract.py:92-139 | As written, a record is stored exactly when the run succeeds. A failed run stores nothing. |
| Routes.ProcessAndSave | backend/routes/extract.py:127-139 | With the error record given a title, every run with input stores one record under its request id and url. It is "completed" exactly when the run succeeds, and otherwise "error" with no requirements. |
| Routes.AcceptedRequestRecorded | backend/routes/extract.py:70-84 | Every task the 202 reply schedules ends with a record stored under the id the client was given. |

## Left out

- The paragraph split `re.split(r"\n\s*\n", …)` is not modelled. The chunker and both extraction pipelines take the list of paragraphs.
- The language-model prompts and calls (`ell`, OpenAI, `get_title`) are parameters. Only the prompt in `convert_wikitext_to_markdown` of `backend/prompts/extract/format.py` is modelled, because there the prompt is the function's result.
- JSON parsing and pydantic validation (`model_validate_json`, `parse_raw`) are a parameter returning `None` on failure.
- Logging, printing, `ell.init`, timing and the `__main__` examples have no effect on the results and are not modelled.
- Scores are exact reals rather than JavaScript doubles, so rounding in the averages is not modelled.
- `Object.values(requirementsData.groups)` is modelled as a sequence of groups in iteration order. JavaScript's key-ordering rules are not modelled.
- The empty-section test of the skipping evaluator models `content` as an optional string. JSON values of other types, with Python truthiness, are not modelled.
- Routes.PersistedUrl: the recorded url is not validated as an `HttpUrl`. A url that pydantic would reject is recorded as is.
- The stored record's `created_at` timestamp and `Settings` indexes are not modelled.
- The 500 path of `extract_requirements` is not modelled. The store lookup and the id generator are total parameters.
- Failures of `doc.insert()` itself are not modelled.
- In `process_and_save_requirements`, `url` is unbound when the input is missing. That path cannot be reached from the endpoint, so it is modelled as storing nothing.
- The `ValidationError` branch of `convert_wikitext` in `backend/utils/format.py` cannot fire for a string, so it is not modelled.
- The React components, the cache layer of the client and the remaining endpoints are not modelled. Neither are the Mongo/Beanie/FastAPI machinery, concurrency and the background-task runner.
- Requirements.UpdateIdempotent: proved only for incoming documents with one group per category. With a repeated new category, the second application merges the copies instead of appending them again.

## Findings

| source | as written | input that shows it | evidently intended | confidence | as-written member | corrected member |
|---|---|---|---|---|---|---|
| backend/routes/extract.py:130-137 | The error record is built without `title`, but `title` is a required field of `RequirementsDocument` (backend/models/requirements.py:8). Building it raises a validation error, which the inner `except` logs, so no error record is stored. | A request with content "" and no url. The run fails with "No content to process" (`Routes.ErrorRecordLost`). | A failed run stores an "error" record under its request id, so a client polling that id sees the failure. | not executed | Routes.ProcessAndSaveAsWritten | Routes.ProcessAndSave |
