# Routing core of mail_ai_agent, modelled in Dafny

mail_ai_agent routes incoming letters (already reduced to text) to the departments of an
organisation. This project models its routing core and proves properties of the model:

- **Catalog loading** (`CatalogLoader`): departments are read from a JSON payload. Ids must be
  present and unique. Each department needs keywords and triage rules. The catalog version
  defaults to `dev`.
- **Input adaptation** (`InputAdapter`): per-page extraction results are merged into one
  normalized letter. This covers the first non-empty subject, issuer and addressee, topics and
  attachments de-duplicated in first-seen order, page texts joined by a blank line, and one
  normalized page per input page.
- **Text normalization** (`TextNormalizer`): the per-page cleanup and field extraction. This
  covers whitespace collapsing, the issuer's two-pass line collection, the addressee block,
  attachment chunks, the deadline, the document type, topics and confidence flags.
- **Candidate retrieval** (`CandidateRetrieval`): keyword hits per tier, the score
  3·high + 1·medium − 2·out-of-scope, and a stable sort by descending score.
- **Triage rules** (`RulesEngine`): fired rule texts per department, +2 priority boosts for
  "high priority" rules, and de-duplicated co-executor review reasons.
- **Routing decision** (`LlmDecider`): the first top-scoring candidate, its normalized
  confidence, and the stubbed LLM-assisted mode.
- **Decision assembly** (`DecisionBuilder`): text source, page map, summary, suggestions,
  final department ids, review reasons and the human-review flag.
- **Validation** (`Validator`): department ids in a decision must be known to the catalog.
  The error message lists the unknown ids sorted and de-duplicated.
- **Token processing** (`TextProcessing`): tokenization, lemmatization, the lemma string, and
  the most frequent terms.

Shared building blocks live in `Models` (the records of `router/models.py`), `Opt` (Option and
Result), `Text` (lower-casing, `strip`, `split`, `splitlines`, join), `Seqs` (filter,
append-if-new, first-seen order) and `StableSort` (Python's stable `sorted(..., reverse=True)`
on an integer key).

Modelling choices:

- Scores are integers: the weights 3, 1 and −2 are integral, so the Python floats are
  integral too. Confidences are `real`.
- Every loop of the source is a `method` proved equal to a specification function. The
  properties are lemmas about those functions.
- External collaborators become parameters:
  - the regular expressions of `text_normalizer.py` (a `Matchers` record of functions, plus
    a `stop` predicate for the issuer's stop-line pattern);
  - the morphological analyzer (`Option<string -> string>`, where `None` means no analyzer);
  - `uuid4()` and the clock (`freshId`, `now`);
  - the JSON-schema validator's error list (`schemaErrors`).

`router/models.py:31-45` declares a `KeywordSpec` (a keyword with its lemmas and anchors) and a
per-department `keyword_index` of them, but nothing in the routing code fills or reads that
index. The scorer counts plain substring hits, the confidence is score over top score, and
the LLM mode is a stub. This model follows the code.

Properties of the code that a reader might not expect are proved as lemmas:

- `TextNormalizer.SecondPassAddsNothing`: the issuer's second pass can never add a line.
- `DecisionBuilder.EmptyPageShiftsSpans` with `DecisionBuilder.PageMapChained`: for a letter
  of two or more pages, one empty page text makes the last span end past the end of the
  joined text. `DecisionBuilder.PageMapLocatesPages` and
  `DecisionBuilder.MergedPageMapLocatesPages` prove the offsets fit the text exactly when no
  page text is empty.
- `DecisionBuilder.SuggestionConfidenceBounds`: a suggestion's confidence has no lower bound
  at 0; a negative score next to a positive top score gives a negative confidence.
- `DecisionBuilder.NoCandidatesNoDecision`: an empty catalog makes `build_decision` fail by
  indexing an empty candidate list.
- `TextProcessing.DigitFilterRedundant`: the digits-only token filter never removes anything
  the letter filter kept.

## Model

| member | source | states |
|---|---|---|
| CandidateRetrieval.FindMatches | router/candidate_retrieval.py:10-16 | the hits are exactly the keywords occurring case-insensitively in the text, in keyword order (a subsequence of the keywords) |
| CandidateRetrieval.CandidateScore | router/candidate_retrieval.py:24-47 | a candidate has the three tiers as hit keys, score 3·high + medium − 2·out-of-scope, bounded by the tier sizes; a missing tier gives no hits; id and name are copied |
| CandidateRetrieval.ScoredAt | router/candidate_retrieval.py:23-47 | the k-th scored candidate is the candidate of the k-th department |
| CandidateRetrieval.PermutedScored | router/candidate_retrieval.py:49 | any permutation of the scored list holds exactly one candidate per department |
| CandidateRetrieval.RetrievedMembers | router/candidate_retrieval.py:19-49 | the result has one candidate per department and nothing else |
| CandidateRetrieval.RetrievedOrder | router/candidate_retrieval.py:49 | the result is sorted by descending score, and equal scores keep catalog order (stable sort) |
| CandidateRetrieval.ScoreDepartment | router/candidate_retrieval.py:25-47 | the loop body computes the department's candidate |
| CandidateRetrieval.RetrieveCandidates | router/candidate_retrieval.py:19-49 | the method returns the stably sorted scored list |
| RulesEngine.MatchesRule | router/rules_engine.py:6-8 | a rule matches iff some trigger occurs case-insensitively; no triggers never match |
| RulesEngine.ReviewReasonIff | router/rules_engine.py:11-15 | a review reason exists iff the lowered rule text mentions a co-executor, and it is the rule text itself (non-empty) |
| RulesEngine.PriorityBoost | router/rules_engine.py:18-22 | the boost is either 0 or 2 |
| RulesEngine.PriorityBoostIff | router/rules_engine.py:18-22 | the boost is 2 iff both "высок" and "приоритет" occur in the lowered text |
| RulesEngine.FiresIff | router/rules_engine.py:33-36 | a rule fires iff it has a non-empty trigger list and one trigger occurs in the text |
| RulesEngine.FiredTextsComplete | router/rules_engine.py:32-38 | every firing rule contributes its text to the department's triggered list |
| RulesEngine.FiredTextsSound | router/rules_engine.py:32-38 | every text in the triggered list comes from a firing rule |
| RulesEngine.FiredTextsEmpty | router/rules_engine.py:31-38 | the triggered list is empty iff no rule fires |
| RulesEngine.TriggeredSpec | router/rules_engine.py:30-49 | a department is in the triggered map iff one of its rules fires, mapped to its fired texts; no other key appears |
| RulesEngine.BoostsSpec | router/rules_engine.py:39-43 | a department has a boost entry iff it has a high-priority fired rule, and the entry is 2 per such rule |
| RulesEngine.BoostsKeys | router/rules_engine.py:39-43 | every boost key is a catalog department id |
| RulesEngine.BoostsBySpec | router/rules_engine.py:39-43 | the per-department accumulation into the boost map gives 2·count exactly for departments with a positive count |
| RulesEngine.AddBoostsFresh | router/rules_engine.py:39-43 | adding a new department's boosts adds one key with 2·count when count > 0 and changes nothing else |
| RulesEngine.AllReasonsAreReasons | router/rules_engine.py:44-46 | every collected candidate reason is a co-executor rule text |
| RulesEngine.ReviewReasonsSpec | router/rules_engine.py:44-46 | review reasons have no duplicates, keep first-seen order, and are exactly the co-executor texts of fired rules |
| RulesEngine.ApplyTriageRules | router/rules_engine.py:25-55 | the method returns the specified rules context |
| RulesEngine.ApplyDepartmentRules | router/rules_engine.py:31-46 | one department's rule loop yields its fired texts, adds its boosts, and appends its new review reasons |
| RulesEngine.ScanTriggered | router/rules_engine.py:32-38 | the rule scan appends exactly the fired texts |
| RulesEngine.ScanBoosts | router/rules_engine.py:39-43 | the rule scan adds 2 per high-priority fired rule to the department's entry |
| RulesEngine.ScanReasons | router/rules_engine.py:44-46 | the rule scan appends the new co-executor texts, skipping ones already present |
| LlmDecider.NormalizeConfidence | router/llm_decider.py:6-9 | the result is in [0, 1]; it is 0 when the maximum is not positive; it is score/max for 0 ≤ score ≤ max and 1 above max |
| LlmDecider.TopIndex | router/llm_decider.py:27 | the index of the first candidate with the maximal score |
| LlmDecider.DecideRouting | router/llm_decider.py:12-47 | no candidates gives no ids, confidence 0 and the "no candidates" comment; otherwise one id, that of the first top scorer, with confidence 1 if some score is positive and 0 otherwise; the LLM mode adds the `llm_not_configured` fallback; the LLM is never used |
| DecisionBuilder.TextSourceSpec | router/decision_builder.py:15-21 | native iff no page used OCR; ocr iff there are pages and all used OCR; mixed iff some did and some did not |
| DecisionBuilder.PageMapChained | router/decision_builder.py:24-40 | each span has its page's text length and starts 2 characters after the previous one ends |
| DecisionBuilder.PageMapEntries | router/decision_builder.py:31-37 | each entry carries its page number and the span id `p<page>` |
| DecisionBuilder.BuildPageMap | router/decision_builder.py:24-40 | the cursor loop builds the specified page map |
| DecisionBuilder.ChainedSpansLocateTexts | router/decision_builder.py:24-40 | chained spans locate each text inside the texts joined by a blank line, and the last span ends at its end |
| DecisionBuilder.PageMapLocatesPages | router/decision_builder.py:24-40 | when no page text is empty, each span cuts exactly its page text out of the joined non-empty texts |
| DecisionBuilder.MergedPageMapLocatesPages | router/decision_builder.py:24-40 | for a letter built by the input adapter from non-empty page texts, each span cuts its page text out of the letter's text |
| DecisionBuilder.ChainedEnd | router/decision_builder.py:26-39 | the last chained span ends at the summed text length plus two characters per gap |
| DecisionBuilder.JoinLength | router/input_adapter.py:81 | joining texts with the blank-line separator adds two characters per gap |
| DecisionBuilder.FilterTotalLength | router/input_adapter.py:81 | dropping the empty texts before joining keeps the summed length |
| DecisionBuilder.EmptyPageShiftsSpans | router/decision_builder.py:24-40 | with two or more pages, one empty page text makes the last chained span (the page map's, by `PageMapChained`) end past the end of the joined non-empty texts |
| DecisionBuilder.CollapseOnlyPlainSpace | router/decision_builder.py:46 | after collapsing `\s+`, every whitespace character is a plain space |
| DecisionBuilder.CollapseNoDoubleSpace | router/decision_builder.py:46 | after collapsing, no two spaces are adjacent |
| DecisionBuilder.CollapseAllSpace | router/decision_builder.py:46 | collapsing keeps a text all-whitespace iff it was |
| DecisionBuilder.SummarySpec | router/decision_builder.py:43-47 | the summary is never empty: the subject if truthy, else the placeholder for blank text, else at most 200 characters of the collapsed stripped text, starting with a non-space |
| DecisionBuilder.MaxScoreSpec | router/decision_builder.py:97 | the maximum score bounds every candidate and is attained; it is 0 when there are no candidates |
| DecisionBuilder.SuggestionConfidenceBounds | router/decision_builder.py:57 | a suggestion's confidence is at most 1; it is 0 when max ≤ 0, 1 for the top score, non-negative for non-negative scores, and negative for negative scores |
| DecisionBuilder.SuggestionForSpec | router/decision_builder.py:56-82 | a suggestion copies id and name, lists high then medium hits, copies the fired rules, and its "why" text reflects whether there were keywords and rules |
| DecisionBuilder.SuggestionsAt | router/decision_builder.py:50-84 | the i-th suggestion is built from the i-th candidate |
| DecisionBuilder.BuildSuggestions | router/decision_builder.py:50-84 | the loop builds the specified suggestion list |
| DecisionBuilder.ReviewReasons | router/decision_builder.py:105-107 | the rules' reasons, followed by the fallback reason when there is one |
| DecisionBuilder.FinalIds | router/decision_builder.py:157 | the routed ids when there are any, else the first candidate's id; this fails only when both are empty |
| DecisionBuilder.WarningsSpec | router/decision_builder.py:126-128 | the "OCR used" warning appears exactly for non-native text, and the empty warning is filtered out |
| DecisionBuilder.DecisionSpec | router/decision_builder.py:87-184 | the decision fails iff there are no ids and no candidates; otherwise it states text source, OCR confidence, warnings, page map, summary, suggestions, final ids, review reasons, needs-review (reasons or confidence < 0.4) and catalog version |
| DecisionBuilder.BuildDecision | router/decision_builder.py:87-184 | the method builds the specified decision |
| DecisionBuilder.LlmAssistedNeedsReview | router/decision_builder.py:105-161 | in LLM-assisted mode, the decision always needs human review and ends its reasons with `llm_not_configured` |
| DecisionBuilder.HeuristicReviewIff | router/decision_builder.py:161 | in heuristic mode with no rule reasons, review is needed iff no candidate has a positive score |
| DecisionBuilder.NoCandidatesNoDecision | router/decision_builder.py:157 | with no candidates, building the decision fails |
| CatalogLoader.EnsureList | router/catalog_loader.py:10-16 | a list is kept, an object becomes a one-element list, and anything else is an error |
| CatalogLoader.IdSetMembers | router/catalog_loader.py:22-31 | the id set holds exactly the ids of the loaded departments |
| CatalogLoader.LoadItemsBuilt | router/catalog_loader.py:25-48 | a successful load has a truthy id, keywords and rules for every item, and builds each department from its item |
| CatalogLoader.LoadItemsAccepts | router/catalog_loader.py:25-38 | loading succeeds iff every item has a truthy id, non-empty keywords and rules, and no id repeats |
| CatalogLoader.FirstRejectedItem | router/catalog_loader.py:25-38 | the load fails with the error of the first unacceptable item: id missing, then duplicate, then keywords, then rules |
| CatalogLoader.DuplicateIdRejected | router/catalog_loader.py:29-30 | the first repeated id fails the load with the "must be unique" error |
| CatalogLoader.FailurePersists | router/catalog_loader.py:25-38 | a failure in a prefix is the failure of the whole load |
| CatalogLoader.LoadedIdsUnique | router/catalog_loader.py:29-31 | a loaded catalog has pairwise distinct ids |
| CatalogLoader.CatalogVersionSpec | router/catalog_loader.py:50-53 | the version is the object's truthy `catalog_version`, else `dev` |
| CatalogLoader.LoadStep | router/catalog_loader.py:25-48 | one loop step either fails the whole load or extends the loaded prefix by one department |
| CatalogLoader.LoadDepartmentsCatalog | router/catalog_loader.py:19-54 | the method returns the specified catalog or error |
| InputAdapter.LoadRawPages | router/input_adapter.py:17-21 | a list is returned as it is, and anything else is an error |
| InputAdapter.PagesSpec | router/input_adapter.py:65-76 | each page has its number (0 if missing), its source (`unknown` if falsy) and its text; `ocr_used` is kept if given, else derived from the source |
| InputAdapter.HeaderValuesSpec | router/input_adapter.py:47-55 | the collected header values are empty iff no page has a truthy one, and the first comes from the first page that has one |
| InputAdapter.HeaderValuesNonEmpty | router/input_adapter.py:50-55 | only truthy header values are collected |
| InputAdapter.FirstHeaderSpec | router/input_adapter.py:78-80 | subject, issuer or addressee is the first page's truthy value, or none if no page has one |
| InputAdapter.MergedListSpec | router/input_adapter.py:56-61 | topics and attachments are de-duplicated, complete, and in first-seen order |
| InputAdapter.CleanTextSpec | router/input_adapter.py:62-81 | filtering empty texts twice is the same as once, so the letter text is the non-empty page texts joined by a blank line |
| InputAdapter.LetterFieldsSpec | router/input_adapter.py:24-35 | the request id defaults to `REQ-` + a fresh id, created-at to now and metadata to empty; channel and filename are copied; there is one page per item |
| InputAdapter.MergeStep | router/input_adapter.py:45-76 | one page extends each accumulator by that page's contribution |
| InputAdapter.NormalizedLetterFromPages | router/input_adapter.py:24-96 | the merge loop builds the specified letter |
| InputAdapter.NormalizePage | router/input_adapter.py:65-76 | the page record is the specified one |
| InputAdapter.MergeNew | router/input_adapter.py:56-61 | the append-if-absent loop gives the specified list |
| Validator.MissingSuggestedSpec | router/validator.py:21-24 | reported suggestion ids are truthy and unknown, and every truthy unknown suggestion id is reported |
| Validator.MissingFinalSpec | router/validator.py:25-29 | reported final ids are unknown, and every unknown final id is reported |
| Validator.MissingIdsSpec | router/validator.py:18-30 | nothing is reported iff every truthy suggestion id and every final id is in the catalog |
| Validator.ValidateDepartments | router/validator.py:18-30 | the method returns the specified missing list |
| Validator.StrLessIrreflexive | router/validator.py:45 | the string order used by `sorted` is irreflexive |
| Validator.StrLessTransitive | router/validator.py:45 | the string order is transitive |
| Validator.StrLessTotal | router/validator.py:45 | the string order is total |
| Validator.InsertUniqueSorted | router/validator.py:45 | inserting into a strictly sorted list keeps it strictly sorted |
| Validator.SortedUniqueSpec | router/validator.py:45 | `sorted(set(...))` is strictly sorted, has no duplicates, and has the same members |
| Validator.DecisionCheckSpec | router/validator.py:33-46 | schema errors fail with the errors joined by newlines; otherwise validation passes iff no id is missing, and the error lists the sorted unique missing ids |
| Validator.ValidateDecision | router/validator.py:33-46 | the method returns the specified outcome |
| Validator.CandidatesKnown | router/validator.py:18-30 | retrieved candidates name only catalog departments |
| Validator.KnownRefsPass | router/validator.py:18-30 | references that are all known pass the department check |
| Validator.RoutedIdsKnown | router/validator.py:18-30 | routing over known candidates picks only known ids |
| Validator.DecisionOverKnownCandidates | router/validator.py:18-30 | a decision built from known candidates and ids references only known ids |
| Validator.BuiltDecisionIdsKnown | router/validator.py:18-30 | a decision built by the pipeline over a catalog always passes that catalog's department check |
| TextProcessing.Tokenize | router/text_processing.py:29-43 | the loop computes the specified tokens |
| TextProcessing.PiecesLowered | router/text_processing.py:30-33 | the split pieces consist of lower-cased word characters |
| TextProcessing.TokensSpec | router/text_processing.py:29-43 | tokens are lowered pieces longer than 2, with a letter, not one repeated character and not digits or underscores; every piece passing these filters is kept, in order |
| TextProcessing.DigitFilterRedundant | router/text_processing.py:36-41 | a token with a letter is never made only of digits and underscores |
| TextProcessing.LemmatizeTokens | router/text_processing.py:56-60 | without an analyzer the tokens are returned as they are; with one, each token is mapped to its normal form |
| TextProcessing.LemmatizeAppend | router/text_processing.py:73-75 | lemmatizing a concatenation is the concatenation of the lemmatizations |
| TextProcessing.NormalizeText | router/text_processing.py:63-68 | the lemma list is the lemmatized tokens, and the lemma set has exactly its members |
| TextProcessing.LemmaStringSplits | router/text_processing.py:67 | splitting the lemma string gives back the lemma list when lemmas are non-empty and contain no whitespace |
| TextProcessing.UnanalyzedRoundTrip | router/text_processing.py:63-68 | without an analyzer, the lemma list and the split lemma string are the tokens |
| TextProcessing.RankedSpec | router/text_processing.py:77-78 | the ranking holds each distinct term exactly once |
| TextProcessing.MostCommonMembers | router/text_processing.py:78 | `most_common(n)` returns min(n, distinct) distinct terms from the input, or none for n ≤ 0 |
| TextProcessing.MostCommonOrder | router/text_processing.py:78 | the result is sorted by descending count, and ties keep first-seen order |
| TextProcessing.MostCommonComplete | router/text_processing.py:78 | a term left out means n terms were returned, none counted less than it |
| TextProcessing.TopTerms | router/text_processing.py:71-78 | the method computes the specified top terms |
| TextProcessing.TopTermsSpec | router/text_processing.py:71-78 | at most max_terms terms, no duplicates, and no stopwords |
| TextNormalizer.ReplaceCrlfSpec | text_normalizer.py:69 | replacing CRLF leaves a text without CR unchanged and introduces no CR |
| TextNormalizer.CollapseNewlinesShape | text_normalizer.py:70 | after collapsing, no three newlines are adjacent |
| TextNormalizer.CollapseBlanksShape | text_normalizer.py:71 | after collapsing, no two spaces or tabs are adjacent |
| TextNormalizer.CollapseBlanksKeepsNewlines | text_normalizer.py:70-71 | collapsing blanks does not create three adjacent newlines |
| TextNormalizer.NormalizeWhitespaceShape | text_normalizer.py:68-72 | normalized whitespace has no triple newline and no double blank |
| TextNormalizer.StripShape | text_normalizer.py:79 | stripping keeps both shapes |
| TextNormalizer.HardCleanupShape | text_normalizer.py:75-79 | cleaned text has both shapes and no whitespace at either end |
| TextNormalizer.StripAll | text_normalizer.py:92 | each line is stripped |
| TextNormalizer.CollectIssuerLines | text_normalizer.py:99-108 | the first-pass loop collects the lines before the specified stop point |
| TextNormalizer.AppendUpperLines | text_normalizer.py:114-121 | the second-pass loop collects up to the specified end |
| TextNormalizer.ExtractIssuer | text_normalizer.py:89-123 | the method returns the specified issuer |
| TextNormalizer.FirstPassSpec | text_normalizer.py:101-108 | the first pass stops exactly at the first stop line outside a «…» quotation |
| TextNormalizer.SecondPassAddsNothing | text_normalizer.py:114-121 | the second pass ends where the first one did |
| TextNormalizer.StrippedLinesSpec | text_normalizer.py:92 | the kept lines are non-empty and start with a non-space |
| TextNormalizer.IssuerSpec | text_normalizer.py:89-123 | no header gives none; otherwise none iff there are no lines or the first is a stop line, else the joined first-pass lines (non-empty) |
| TextNormalizer.FirstMatch | text_normalizer.py:128-131 | the first line matching the addressee pattern, or none |
| TextNormalizer.BlockFromSpec | text_normalizer.py:133-136 | the block is the stripped lines up to the first blank one |
| TextNormalizer.CollectBlock | text_normalizer.py:132-136 | the loop collects the matched line and its block |
| TextNormalizer.ExtractAddressee | text_normalizer.py:126-138 | the method returns the specified addressee |
| TextNormalizer.NoAddressee | text_normalizer.py:126-138 | without a matching line there is no addressee |
| TextNormalizer.AddresseeAt | text_normalizer.py:126-138 | the addressee is the first matching line and its block, stripped and joined by spaces |
| TextNormalizer.SplitAtSeps | text_normalizer.py:159 | splitting at `;` and `,` leaves no separator in any piece |
| TextNormalizer.ExtractAttachments | text_normalizer.py:156-161 | the loop computes the specified attachments |
| TextNormalizer.ChunksSpec | text_normalizer.py:159 | every chunk is non-empty, separator-free and stripped |
| TextNormalizer.AttachmentsSpec | text_normalizer.py:156-161 | every attachment is such a chunk |
| TextNormalizer.DeadlineOf | text_normalizer.py:164-171 | the "в срок до" date if found, else the "просим … до" date, else none |
| TextNormalizer.DocTypeSpec | text_normalizer.py:183-196 | each document type holds iff its cue matches and no earlier rule did; reporting and request need a deadline |
| TextNormalizer.TopicsOf | text_normalizer.py:199-210 | topics are distinct and drawn from AI, reporting, finance and CV |
| TextNormalizer.NormalizeText | text_normalizer.py:213-245 | the method returns the specified normalization |
| TextNormalizer.NormalizationFlags | text_normalizer.py:227-231 | action is required iff there is a deadline; the flags are exactly `ocr_used` and `missing_reg_number` with their meanings |
| TextNormalizer.DocTypeNeedsAction | text_normalizer.py:222-227 | a reporting or request document always requires action |
| TextNormalizer.NormalizationFields | text_normalizer.py:213-245 | the clean text has normalized whitespace, the issuer is non-empty when present, and attachments are chunks |
| TextNormalizer.NormalizeTexts | text_normalizer.py:248-249 | one result per text, each the normalization of that text |
| Text.Lower | router/rules_engine.py:7 | lower-casing maps every character on its own and keeps the length |
| Text.Strip | text_normalizer.py:92 | `strip` returns a string no longer than its input, with no whitespace at either end |
| Text.StripBlank | text_normalizer.py:92 | a string strips to empty iff it is all whitespace |
| Text.WordsOfJoin | router/text_processing.py:67 | `split()` of space-joined words without whitespace gives the words back |
| Text.SplitLines | text_normalizer.py:127 | `splitlines` yields lines free of line breaks |
| Seqs.AppendNewFirstSeen | router/input_adapter.py:56-61 | append-if-absent keeps the first-seen order of the input |
| Seqs.AppendNewMembers | router/input_adapter.py:56-61 | append-if-absent keeps the accumulator and adds every input element, nothing else |
| StableSort.SortDesc | router/candidate_retrieval.py:49 | the stable descending sort is a permutation, sorted, and keeps the order within each key |

## Left out

- JSON is modelled as typed records with optional fields. A key present with JSON `null`
  reads like a missing key, so `rule.get("then", ...)` with a null value yields the default
  in the model, whereas Python yields "None". Non-dict items and wrongly typed values
  (`str()` and `int()` conversions of arbitrary JSON) are not modelled.
- Reading files and parsing JSON (`router/catalog_loader.py:20`,
  `router/input_adapter.py:99-117`, `router/validator.py:12`) are left out. The parsed payload
  is the input.
- `validate_schema` (a JSON-schema library) is not modelled. Its error list is the parameter
  `schemaErrors`.
- `uuid4()` and `_iso_now()` are parameters, because they are randomness and a clock.
- Regular expressions in `text_normalizer.py`: `HEADER_RE`, `ADDRESSEE_RE`, `SUBJECT_RE`,
  `REG_NUMBER_RE`, `ATTACHMENT_RE`, the deadline patterns, `SIGNATORY_RE`, `CONTACTS_RE`, the
  placeholder and signature patterns, the issuer's stop pattern and the topic search for the
  word "ии" are parameters. The code around them is
  modelled, but not the patterns themselves.
- `_extract_reg_date`'s result is discarded by `normalize_text`, so the model does not
  compute it.
- The pymorphy analyzer and its `lru_cache` are not modelled. `morph.parse(t)[0].normal_form`
  is an arbitrary function parameter.
- `str.lower`, `str.isupper`, `\s` and `\w` are modelled for ASCII and basic Cyrillic only.
  Other scripts are not modelled.
- The constant parts of the decision dictionary (schema version, language, doc type, urgency,
  entities other than organizations, compliance, model name) are not modelled. Its computed
  fields are a record.
- Floats are `int` for scores and `real` for confidences, so no rounding is modelled.
- `normalized_letter_to_dict` and `normalized_letter_from_json` are left out, because they are
  serialization and file I/O.
- `router/pipeline.py`, `main.py`, `pdf_extractor.py` and `router/ollama_client.py` are not
  part of this model.
- `KeywordSpec` is declared as a record with no behaviour, because no routing code builds or
  reads one. `Department.keyword_index` is a field that the catalog loader leaves empty
  (`CatalogLoader.BuiltFrom`).
