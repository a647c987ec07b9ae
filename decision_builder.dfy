/** Assembly of the routing decision document (router/decision_builder.py): text
    provenance, page map, summary, per-candidate suggestions and the review fields. */
module DecisionBuilder {
  import opened Opt
  import opened Text
  import opened Seqs
  import opened Models
  import CandidateRetrieval
  import LlmDecider
  import InputAdapter

  const Native := "native"
  const Ocr := "ocr"
  const Mixed := "mixed"
  const OcrUsedFlag := "ocr_used"
  const PageSeparator := "\n\n"
  const SummaryLimit := 200
  const NoSummary := "No summary available"
  const KeywordsMatched := "Совпали ключевые слова"
  const NoKeywordsMatched := "Ключевых совпадений нет"
  const RulesMatchedSuffix := "; сработали правила триажа"
  const PrimaryPriority := "primary"
  const OcrWarning := "OCR used"
  const ReviewThreshold: real := 0.4

  /** `page.confidence_flags.get("ocr_used")` taken as a truth value. */
  predicate OcrUsed(page: NormalizedPage) {
    OcrUsedFlag in page.confidenceFlags && page.confidenceFlags[OcrUsedFlag]
  }

  /** `_derive_text_source` */
  function DeriveTextSource(letter: NormalizedLetter): string {
    var ocrPages := Filter(letter.pages, OcrUsed);
    if ocrPages == [] then Native
    else if |ocrPages| == |letter.pages| then Ocr
    else Mixed
  }

  /** The text source is "native" when no page used OCR (also with no pages at all),
      "ocr" when there are pages and every one did, and "mixed" otherwise. */
  lemma TextSourceSpec(letter: NormalizedLetter)
    ensures DeriveTextSource(letter) == Native <==> forall i :: 0 <= i < |letter.pages| ==> !OcrUsed(letter.pages[i])
    ensures DeriveTextSource(letter) == Ocr <==>
      letter.pages != [] && forall i :: 0 <= i < |letter.pages| ==> OcrUsed(letter.pages[i])
    ensures DeriveTextSource(letter) == Mixed <==>
      (exists i :: 0 <= i < |letter.pages| && OcrUsed(letter.pages[i]))
      && (exists i :: 0 <= i < |letter.pages| && !OcrUsed(letter.pages[i]))
  {
    var ocrPages := Filter(letter.pages, OcrUsed);
    FilterMembers(letter.pages, OcrUsed);
    FilterKeepsAll(letter.pages, OcrUsed);
    assert ocrPages != [] ==> ocrPages[0] in letter.pages;
  }

  /** The decimal digit `d`. */
  function DigitChar(d: nat): char
    requires d < 10
  {
    ('0' as int + d) as char
  }

  /** Decimal notation of a natural number. */
  function NatToString(n: nat): (r: string)
    ensures r != []
  {
    if n < 10 then [DigitChar(n)] else NatToString(n / 10) + [DigitChar(n % 10)]
  }

  /** `str(i)` for an integer. */
  function IntToString(i: int): string {
    if i < 0 then "-" + NatToString(-i) else NatToString(i)
  }

  /** One entry of the page map. */
  datatype PageSpan = PageSpan(page: int, textSpanId: string, charStart: int, charEnd: int)

  /** `f"p{page}"` */
  function SpanId(page: int): string {
    "p" + IntToString(page)
  }

  /** The texts of the pages, in order. */
  function PageTexts(pages: seq<NormalizedPage>): (r: seq<string>)
    ensures |r| == |pages|
    ensures forall i :: 0 <= i < |pages| ==> r[i] == pages[i].cleanTextForLlm
  {
    if pages == [] then [] else PageTexts(pages[..|pages| - 1]) + [pages[|pages| - 1].cleanTextForLlm]
  }

  /** Spans laid end to end over `texts`: the first starts at 0, each is as long as its text
      and the next starts two characters after the previous end. */
  predicate ChainedSpans(texts: seq<string>, spans: seq<PageSpan>) {
    && |spans| == |texts|
    && (spans != [] ==> spans[0].charStart == 0)
    && (forall i :: 0 <= i < |spans| ==> spans[i].charEnd - spans[i].charStart == |texts[i]|)
    && (forall i :: 0 < i < |spans| ==> spans[i].charStart == spans[i - 1].charEnd + 2)
  }

  /** Where the span after `spans` starts. */
  function NextStart(spans: seq<PageSpan>): int {
    if spans == [] then 0 else spans[|spans| - 1].charEnd + 2
  }

  /** The page map `_build_page_map` returns. */
  function PageMap(pages: seq<NormalizedPage>): (r: seq<PageSpan>)
    ensures |r| == |pages|
  {
    if pages == [] then []
    else
      var init := PageMap(pages[..|pages| - 1]);
      var page := pages[|pages| - 1];
      init + [SpanOf(page, NextStart(init))]
  }

  /** Appending a span that starts where the chain continues and is as long as its text
      keeps the spans chained. */
  lemma ChainedSnoc(texts: seq<string>, spans: seq<PageSpan>, text: string, span: PageSpan)
    requires ChainedSpans(texts, spans)
    requires span.charStart == NextStart(spans) && span.charEnd - span.charStart == |text|
    ensures ChainedSpans(texts + [text], spans + [span])
  {
    var t, m := texts + [text], spans + [span];
    forall i | 0 <= i < |m|
      ensures m[i].charEnd - m[i].charStart == |t[i]|
    {
      if i < |spans| {
        assert m[i] == spans[i] && t[i] == texts[i];
      }
    }
  }

  /** The span of a page: it starts at `start` and is as long as the page text. */
  function SpanOf(page: NormalizedPage, start: int): PageSpan {
    PageSpan(page.page, SpanId(page.page), start, start + |page.cleanTextForLlm|)
  }

  /** One more page adds its span, starting where the chain continues, at the end. */
  lemma PageMapSnoc(init: seq<NormalizedPage>, page: NormalizedPage)
    ensures PageMap(init + [page]) == PageMap(init) + [SpanOf(page, NextStart(PageMap(init)))]
  {
    assert (init + [page])[..|init|] == init;
  }

  lemma PageTextsSnoc(pages: seq<NormalizedPage>)
    requires pages != []
    ensures PageTexts(pages) == PageTexts(pages[..|pages| - 1]) + [pages[|pages| - 1].cleanTextForLlm]
  {
  }

  /** The spans of the page map are chained over the page texts with a gap of two
      characters (the length of the page separator). */
  lemma {:induction false} PageMapChained(pages: seq<NormalizedPage>)
    ensures ChainedSpans(PageTexts(pages), PageMap(pages))
  {
    if pages != [] {
      var init := pages[..|pages| - 1];
      var page := pages[|pages| - 1];
      assert pages == init + [page];
      PageMapChained(init);
      PageMapSnoc(init, page);
      PageTextsSnoc(pages);
      ChainedSnoc(PageTexts(init), PageMap(init), page.cleanTextForLlm, SpanOf(page, NextStart(PageMap(init))));
    }
  }

  /** The page map has one entry per page, in order, named `p<page>`. */
  lemma {:induction false} PageMapEntries(pages: seq<NormalizedPage>)
    ensures forall i :: 0 <= i < |pages| ==>
      PageMap(pages)[i].page == pages[i].page && PageMap(pages)[i].textSpanId == SpanId(pages[i].page)
  {
    if pages != [] {
      var init := pages[..|pages| - 1];
      var page := pages[|pages| - 1];
      assert pages == init + [page];
      PageMapEntries(init);
      PageMapSnoc(init, page);
      forall i | 0 <= i < |init| ensures PageMap(pages)[i] == PageMap(init)[i] && pages[i] == init[i] {}
    }
  }

  /** The page map of one more page of a prefix. */
  lemma PageMapStep(pages: seq<NormalizedPage>, i: nat, pageMap: seq<PageSpan>)
    requires i < |pages| && pageMap == PageMap(pages[..i])
    ensures PageMap(pages[..i + 1]) == pageMap + [PageSpan(pages[i].page, SpanId(pages[i].page),
                                                           NextStart(pageMap), NextStart(pageMap) + |pages[i].cleanTextForLlm|)]
  {
    assert pages[..i + 1] == pages[..i] + [pages[i]];
    PageMapSnoc(pages[..i], pages[i]);
  }

  /** `_build_page_map` */
  method BuildPageMap(letter: NormalizedLetter) returns (pageMap: seq<PageSpan>)
    ensures pageMap == PageMap(letter.pages)
  {
    var pages := letter.pages;
    pageMap := [];
    var cursor := 0;
    for i := 0 to |pages|
      invariant pageMap == PageMap(pages[..i])
      invariant cursor == NextStart(pageMap)
    {
      PageMapStep(pages, i, pageMap);
      var page := pages[i];
      var pageText := page.cleanTextForLlm;
      var charStart := cursor;
      var charEnd := cursor + |pageText|;
      pageMap := pageMap + [PageSpan(page.page, SpanId(page.page), charStart, charEnd)];
      cursor := charEnd + 2;
    }
    assert pages[..|pages|] == pages;
  }

  /** Over the separator-joined texts, every chained span covers exactly its own text, and
      the last span ends where the joined text ends. */
  lemma {:induction false} ChainedSpansLocateTexts(texts: seq<string>, spans: seq<PageSpan>)
    requires ChainedSpans(texts, spans) && texts != []
    ensures |Join(PageSeparator, texts)| == spans[|spans| - 1].charEnd
    ensures forall i :: 0 <= i < |texts| ==>
      && 0 <= spans[i].charStart <= spans[i].charEnd <= |Join(PageSeparator, texts)|
      && Join(PageSeparator, texts)[spans[i].charStart..spans[i].charEnd] == texts[i]
  {
    var n := |texts|;
    if n > 1 {
      var init := texts[..n - 1];
      var initSpans := spans[..n - 1];
      assert ChainedSpans(init, initSpans);
      ChainedSpansLocateTexts(init, initSpans);
      var prefix := Join(PageSeparator, init);
      assert Join(PageSeparator, texts) == prefix + PageSeparator + texts[n - 1];
      forall i | 0 <= i < n
        ensures 0 <= spans[i].charStart <= spans[i].charEnd <= |Join(PageSeparator, texts)|
        ensures Join(PageSeparator, texts)[spans[i].charStart..spans[i].charEnd] == texts[i]
      {
        if i < n - 1 {
          assert initSpans[i] == spans[i] && init[i] == texts[i];
        }
      }
    }
  }

  /** When every page has text, the page map indexes the letter text joined with "\n\n":
      each span is the slice of the joined text holding that page. */
  lemma PageMapLocatesPages(texts: seq<string>, spans: seq<PageSpan>)
    requires ChainedSpans(texts, spans)
    requires forall i :: 0 <= i < |texts| ==> texts[i] != ""
    ensures var joined := Join(PageSeparator, Filter(texts, NonEmpty));
      forall i :: 0 <= i < |texts| ==>
        0 <= spans[i].charStart <= spans[i].charEnd <= |joined| && joined[spans[i].charStart..spans[i].charEnd] == texts[i]
  {
    FilterKeepsAll(texts, NonEmpty);
    FilterAll(texts, NonEmpty);
    if texts != [] {
      ChainedSpansLocateTexts(texts, spans);
    }
  }

  /** The summed length of the texts. */
  function TotalLength(texts: seq<string>): nat {
    if texts == [] then 0 else TotalLength(texts[..|texts| - 1]) + |texts[|texts| - 1]|
  }

  lemma TotalLengthSnoc(texts: seq<string>, text: string)
    ensures TotalLength(texts + [text]) == TotalLength(texts) + |text|
  {
    assert (texts + [text])[..|texts|] == texts;
  }

  /** Chained spans end at the summed text length plus two characters per gap. */
  lemma {:induction false} ChainedEnd(texts: seq<string>, spans: seq<PageSpan>)
    requires ChainedSpans(texts, spans) && texts != []
    ensures spans[|spans| - 1].charEnd == TotalLength(texts) + 2 * (|texts| - 1)
  {
    var n := |texts|;
    if n > 1 {
      assert ChainedSpans(texts[..n - 1], spans[..n - 1]);
      ChainedEnd(texts[..n - 1], spans[..n - 1]);
    } else {
      assert texts[..0] == [];
    }
  }

  /** Joining with the page separator adds two characters per gap. */
  lemma {:induction false} JoinLength(parts: seq<string>)
    requires parts != []
    ensures |Join(PageSeparator, parts)| == TotalLength(parts) + 2 * (|parts| - 1)
  {
    if |parts| > 1 {
      JoinLength(parts[..|parts| - 1]);
    } else {
      assert parts[..0] == [];
    }
  }

  /** Dropping empty texts does not change the summed length. */
  lemma {:induction false} FilterTotalLength(texts: seq<string>)
    ensures TotalLength(Filter(texts, NonEmpty)) == TotalLength(texts)
  {
    if texts != [] {
      var init, last := texts[..|texts| - 1], texts[|texts| - 1];
      FilterTotalLength(init);
      assert TotalLength(texts) == TotalLength(init) + |last|;
      if NonEmpty(last) {
        assert Filter(texts, NonEmpty) == Filter(init, NonEmpty) + [last];
        TotalLengthSnoc(Filter(init, NonEmpty), last);
      } else {
        assert Filter(texts, NonEmpty) == Filter(init, NonEmpty);
      }
    }
  }

  /** With two or more pages, one empty page text breaks the page map: the empty text is
      left out of the joined text but its span still advances the offsets by a separator,
      so the last span ends past the end of the joined text. `PageMapChained` shows that
      the page map is such a chain of spans over the page texts; together with
      `PageMapLocatesPages`, the offsets of a letter of two or more pages fit its text
      exactly when no page text is empty. */
  lemma EmptyPageShiftsSpans(texts: seq<string>, spans: seq<PageSpan>, i: nat)
    requires ChainedSpans(texts, spans) && 2 <= |texts| && i < |texts| && texts[i] == ""
    ensures spans[|spans| - 1].charEnd > |Join(PageSeparator, Filter(texts, NonEmpty))|
  {
    ChainedEnd(texts, spans);
    FilterKeepsAll(texts, NonEmpty);
    FilterTotalLength(texts);
    var kept := Filter(texts, NonEmpty);
    if kept != [] {
      JoinLength(kept);
    }
  }

  /** `re.sub(r"\s+", " ", text)`: every run of whitespace becomes one space. */
  function CollapseSpaces(s: string): (r: string)
    ensures |r| <= |s|
    ensures r == [] <==> s == []
    ensures r != [] ==> (IsSpace(r[0]) <==> IsSpace(s[0]))
    decreases |s|
  {
    if s == [] then []
    else if IsSpace(s[0]) then [' '] + CollapseSpaces(s[RunLength(s, IsSpace)..])
    else [s[0]] + CollapseSpaces(s[1..])
  }

  predicate AllSpace(s: string) {
    forall i :: 0 <= i < |s| ==> IsSpace(s[i])
  }

  /** The only whitespace character in `s` is the plain space. */
  predicate PlainSpaces(s: string) {
    forall i :: 0 <= i < |s| ==> (IsSpace(s[i]) ==> s[i] == ' ')
  }

  /** After collapsing, the only whitespace character left is the plain space. */
  lemma {:induction false} CollapseOnlyPlainSpace(s: string)
    ensures PlainSpaces(CollapseSpaces(s))
    decreases |s|
  {
    if s != [] {
      var n := if IsSpace(s[0]) then RunLength(s, IsSpace) else 1;
      CollapseOnlyPlainSpace(s[n..]);
      var r, r' := CollapseSpaces(s), CollapseSpaces(s[n..]);
      assert r == [if IsSpace(s[0]) then ' ' else s[0]] + r';
      forall i | 0 <= i < |r| ensures IsSpace(r[i]) ==> r[i] == ' ' {
        if i > 0 {
          assert r[i] == r'[i - 1];
        }
      }
    }
  }

  /** No two spaces of `s` are adjacent. */
  predicate NoDoubleSpace(s: string) {
    forall i :: 0 <= i < |s| - 1 ==> !(s[i] == ' ' && s[i + 1] == ' ')
  }

  /** After collapsing, no two spaces are adjacent. */
  lemma {:induction false} CollapseNoDoubleSpace(s: string)
    ensures NoDoubleSpace(CollapseSpaces(s))
    decreases |s|
  {
    if s != [] {
      var n := if IsSpace(s[0]) then RunLength(s, IsSpace) else 1;
      CollapseNoDoubleSpace(s[n..]);
      var r, r' := CollapseSpaces(s), CollapseSpaces(s[n..]);
      assert r == [if IsSpace(s[0]) then ' ' else s[0]] + r';
      forall i | 0 <= i < |r| - 1 ensures !(r[i] == ' ' && r[i + 1] == ' ') {
        if i > 0 {
          assert r[i] == r'[i - 1] && r[i + 1] == r'[i];
        } else if IsSpace(s[0]) {
          assert !IsSpace(s[n..][0]);
          assert !IsSpace(r'[0]);
        }
      }
    }
  }

  /** A string is all whitespace exactly when its head and its tail are. */
  lemma AllSpaceCons(c: char, t: string)
    ensures AllSpace([c] + t) <==> IsSpace(c) && AllSpace(t)
  {
    var u := [c] + t;
    assert u[0] == c;
    assert forall j :: 0 <= j < |t| ==> t[j] == u[j + 1];
  }

  /** Past a leading run of whitespace, the rest decides whether all of it is whitespace. */
  lemma AllSpaceAfterRun(s: string, n: nat)
    requires n <= |s|
    requires forall i :: 0 <= i < n ==> IsSpace(s[i])
    ensures AllSpace(s) <==> AllSpace(s[n..])
  {
    assert forall j :: 0 <= j < |s| - n ==> s[n..][j] == s[n + j];
    if AllSpace(s[n..]) {
      forall i | n <= i < |s| ensures IsSpace(s[i]) {
        assert s[i] == s[n..][i - n];
      }
    }
  }

  /** Collapsing keeps a text all-whitespace exactly when it was. */
  lemma {:induction false} CollapseAllSpace(s: string)
    ensures AllSpace(CollapseSpaces(s)) <==> AllSpace(s)
    decreases |s|
  {
    if s != [] {
      var n := if IsSpace(s[0]) then RunLength(s, IsSpace) else 1;
      CollapseAllSpace(s[n..]);
      var c := if IsSpace(s[0]) then ' ' else s[0];
      assert CollapseSpaces(s) == [c] + CollapseSpaces(s[n..]);
      AllSpaceCons(c, CollapseSpaces(s[n..]));
      if IsSpace(s[0]) {
        AllSpaceAfterRun(s, n);
      }
    }
  }

  /** `_ensure_summary` */
  function EnsureSummary(letter: NormalizedLetter): string {
    if Truthy(letter.subject) then letter.subject.value
    else
      var cleaned := Strip(CollapseSpaces(letter.cleanTextForLlm));
      if cleaned != [] then
        if |cleaned| <= SummaryLimit then cleaned else cleaned[..SummaryLimit]
      else NoSummary
  }

  /** The summary is never empty: a non-empty subject; else "No summary available" when the
      text is all whitespace; else at most 200 characters starting the whitespace-collapsed,
      stripped text, so it starts with a non-space. */
  lemma SummarySpec(letter: NormalizedLetter)
    ensures EnsureSummary(letter) != []
    ensures Truthy(letter.subject) ==> EnsureSummary(letter) == letter.subject.value
    ensures !Truthy(letter.subject) && AllSpace(letter.cleanTextForLlm) ==> EnsureSummary(letter) == NoSummary
    ensures !Truthy(letter.subject) && !AllSpace(letter.cleanTextForLlm) ==>
      && |EnsureSummary(letter)| <= SummaryLimit
      && EnsureSummary(letter) <= Strip(CollapseSpaces(letter.cleanTextForLlm))
      && !IsSpace(EnsureSummary(letter)[0])
  {
    if !Truthy(letter.subject) {
      var collapsed := CollapseSpaces(letter.cleanTextForLlm);
      assert AllSpace(letter.cleanTextForLlm) <==> Strip(collapsed) == [] by {
        CollapseAllSpace(letter.cleanTextForLlm);
        StripBlank(collapsed);
      }
    }
  }

  /** `max(candidate.score for candidate in candidates, default=0)` */
  function MaxScore(candidates: seq<CandidateDepartment>): int {
    if candidates == [] then 0
    else if |candidates| == 1 then candidates[0].score
    else
      var m := MaxScore(candidates[..|candidates| - 1]);
      if candidates[|candidates| - 1].score > m then candidates[|candidates| - 1].score else m
  }

  /** The top score bounds every candidate's score and is one of them; 0 with no candidates. */
  lemma {:induction false} MaxScoreSpec(candidates: seq<CandidateDepartment>)
    ensures candidates == [] ==> MaxScore(candidates) == 0
    ensures forall i :: 0 <= i < |candidates| ==> candidates[i].score <= MaxScore(candidates)
    ensures candidates != [] ==> exists i :: 0 <= i < |candidates| && candidates[i].score == MaxScore(candidates)
  {
    if |candidates| > 1 {
      var init := candidates[..|candidates| - 1];
      MaxScoreSpec(init);
      assert forall i :: 0 <= i < |init| ==> init[i] == candidates[i];
      if candidates[|candidates| - 1].score > MaxScore(init) {
        assert candidates[|candidates| - 1].score == MaxScore(candidates);
      } else {
        var k :| 0 <= k < |init| && init[k].score == MaxScore(init);
        assert candidates[k].score == MaxScore(candidates);
      }
    } else if |candidates| == 1 {
      assert candidates[0].score == MaxScore(candidates);
    }
  }

  /** One entry of `routing.suggestions`. */
  datatype Suggestion = Suggestion(
    departmentId: string,
    departmentName: string,
    confidence: real,
    priority: string,
    why: string,
    keywords: seq<string>,
    rulesTriggered: seq<string>,
    semanticScore: real)

  /** `0.0 if max_score <= 0 else min(1.0, score / max_score)`: no lower clip. */
  function SuggestionConfidence(score: int, maxScore: int): real {
    if maxScore <= 0 then 0.0
    else
      var q := score as real / maxScore as real;
      if q <= 1.0 then q else 1.0
  }

  /** A suggestion's confidence is at most 1; it is exactly 1 for a top-scoring candidate
      and 0 when no score is positive. */
  lemma SuggestionConfidenceBounds(score: int, maxScore: int)
    ensures SuggestionConfidence(score, maxScore) <= 1.0
    ensures maxScore <= 0 ==> SuggestionConfidence(score, maxScore) == 0.0
    ensures maxScore > 0 && score == maxScore ==> SuggestionConfidence(score, maxScore) == 1.0
    ensures maxScore > 0 && 0 <= score ==> 0.0 <= SuggestionConfidence(score, maxScore)
    ensures maxScore > 0 && score < 0 ==> SuggestionConfidence(score, maxScore) < 0.0
  {
    if maxScore > 0 && score < 0 {
      assert (score as real) / (maxScore as real) < 0.0;
    }
  }

  /** The suggestion built for one candidate. */
  function SuggestionFor(candidate: CandidateDepartment, rulesContext: RulesContext, maxScore: int): Suggestion {
    var rulesTriggered := ListAt(rulesContext.rulesTriggered, candidate.departmentId);
    var keywords := ListAt(candidate.keywordHits, CandidateRetrieval.HighTier)
                    + ListAt(candidate.keywordHits, CandidateRetrieval.MediumTier);
    var why := (if keywords != [] then KeywordsMatched else NoKeywordsMatched)
               + (if rulesTriggered != [] then RulesMatchedSuffix else "");
    Suggestion(candidate.departmentId, candidate.departmentName, SuggestionConfidence(candidate.score, maxScore),
               PrimaryPriority, why, keywords, rulesTriggered, 0.0)
  }

  predicate EndsWith(s: string, suffix: string) {
    |suffix| <= |s| && s[|s| - |suffix|..] == suffix
  }

  /** A suggestion names its candidate, lists the high-precision hits before the
      medium-precision ones, carries the department's triggered rules, and its `why`
      says whether keywords matched and whether triage rules fired. */
  lemma SuggestionForSpec(candidate: CandidateDepartment, rulesContext: RulesContext, maxScore: int)
    ensures var s := SuggestionFor(candidate, rulesContext, maxScore);
      && s.departmentId == candidate.departmentId && s.departmentName == candidate.departmentName
      && s.keywords[..|ListAt(candidate.keywordHits, CandidateRetrieval.HighTier)|]
           == ListAt(candidate.keywordHits, CandidateRetrieval.HighTier)
      && s.keywords[|ListAt(candidate.keywordHits, CandidateRetrieval.HighTier)|..]
           == ListAt(candidate.keywordHits, CandidateRetrieval.MediumTier)
      && s.rulesTriggered == ListAt(rulesContext.rulesTriggered, candidate.departmentId)
      && (s.keywords != [] <==> KeywordsMatched <= s.why)
      && (s.keywords == [] <==> NoKeywordsMatched <= s.why)
      && (s.rulesTriggered != [] <==> EndsWith(s.why, RulesMatchedSuffix))
      && s.confidence <= 1.0
      && s.priority == PrimaryPriority
  {
    SuggestionConfidenceBounds(candidate.score, maxScore);
    assert KeywordsMatched[0] != NoKeywordsMatched[0];
  }

  /** The suggestions for `candidates`, in candidate order. */
  function Suggestions(candidates: seq<CandidateDepartment>, rulesContext: RulesContext, maxScore: int): (r: seq<Suggestion>)
    ensures |r| == |candidates|
  {
    if candidates == [] then []
    else Suggestions(candidates[..|candidates| - 1], rulesContext, maxScore)
         + [SuggestionFor(candidates[|candidates| - 1], rulesContext, maxScore)]
  }

  /** There is one suggestion per candidate, at the candidate's position. */
  lemma {:induction false} SuggestionsAt(candidates: seq<CandidateDepartment>, rulesContext: RulesContext, maxScore: int)
    ensures forall i :: 0 <= i < |candidates| ==>
      Suggestions(candidates, rulesContext, maxScore)[i] == SuggestionFor(candidates[i], rulesContext, maxScore)
  {
    if candidates != [] {
      var init := candidates[..|candidates| - 1];
      SuggestionsAt(init, rulesContext, maxScore);
      assert forall i :: 0 <= i < |init| ==> init[i] == candidates[i];
    }
  }

  /** `_build_suggestions` */
  method BuildSuggestions(candidates: seq<CandidateDepartment>, rulesContext: RulesContext, maxScore: int)
    returns (suggestions: seq<Suggestion>)
    ensures suggestions == Suggestions(candidates, rulesContext, maxScore)
  {
    suggestions := [];
    for i := 0 to |candidates|
      invariant suggestions == Suggestions(candidates[..i], rulesContext, maxScore)
    {
      assert candidates[..i + 1][..i] == candidates[..i];
      var candidate := candidates[i];
      var confidence := if maxScore <= 0 then 0.0
                        else (var q := candidate.score as real / maxScore as real; if q <= 1.0 then q else 1.0);
      var rulesTriggered := ListAt(rulesContext.rulesTriggered, candidate.departmentId);
      var keywords := ListAt(candidate.keywordHits, CandidateRetrieval.HighTier)
                      + ListAt(candidate.keywordHits, CandidateRetrieval.MediumTier);
      var why := if keywords != [] then KeywordsMatched else NoKeywordsMatched;
      if rulesTriggered != [] {
        why := why + RulesMatchedSuffix;
      }
      assert confidence == SuggestionConfidence(candidate.score, maxScore);
      assert why == SuggestionFor(candidate, rulesContext, maxScore).why;
      suggestions := suggestions + [Suggestion(candidate.departmentId, candidate.departmentName, confidence,
                                               PrimaryPriority, why, keywords, rulesTriggered, 0.0)];
    }
    assert candidates[..|candidates|] == candidates;
  }

  /** An organisation mentioned in the letter. */
  datatype Organization = Organization(name: string, role: string)

  /** The decision document, restricted to the fields computed from the inputs; the
      constant fields (schema version, language, empty entity lists and the like) are
      left out. */
  datatype Decision = Decision(
    requestId: string,
    createdAt: string,
    sourceChannel: string,
    filename: string,
    pageCount: nat,
    metadata: map<string, string>,
    textSource: string,
    pageMap: seq<PageSpan>,
    ocrConfidence: real,
    warnings: seq<string>,
    summary: string,
    topics: seq<string>,
    organizations: seq<Organization>,
    suggestions: seq<Suggestion>,
    finalDepartmentIds: seq<string>,
    finalConfidence: real,
    finalComment: string,
    needsHumanReview: bool,
    reviewReasons: seq<string>,
    catalogVersion: string,
    processingTimeMs: int)

  /** The rules' review reasons followed by the decision's fallback reason, if any. */
  function ReviewReasons(rulesContext: RulesContext, routing: RoutingDecision): (r: seq<string>)
    ensures rulesContext.reviewReasons <= r
    ensures |r| == |rulesContext.reviewReasons| + (if Truthy(routing.fallbackReason) then 1 else 0)
    ensures Truthy(routing.fallbackReason) ==> r[|r| - 1] == routing.fallbackReason.value
  {
    rulesContext.reviewReasons + (if Truthy(routing.fallbackReason) then [routing.fallbackReason.value] else [])
  }

  /** `needs_human_review`: some review reason, or a confidence under 0.4. */
  predicate NeedsHumanReview(reviewReasons: seq<string>, confidence: real) {
    reviewReasons != [] || confidence < ReviewThreshold
  }

  /** The final department ids: the decision's own, else the first candidate's; none
      when both are empty (the source fails indexing an empty list). */
  function FinalIds(routing: RoutingDecision, candidates: seq<CandidateDepartment>): (r: Option<seq<string>>)
    ensures r.None? <==> routing.departmentIds == [] && candidates == []
    ensures r.Some? ==> r.value != []
    ensures routing.departmentIds != [] ==> r == Some(routing.departmentIds)
  {
    if routing.departmentIds != [] then Some(routing.departmentIds)
    else if candidates != [] then Some([candidates[0].departmentId])
    else None
  }

  /** The organisations: the issuer as sender, then the addressee as mentioned. */
  function Organizations(letter: NormalizedLetter): seq<Organization> {
    (if Truthy(letter.issuer) then [Organization(letter.issuer.value, "sender")] else [])
    + (if Truthy(letter.addressee) then [Organization(letter.addressee.value, "mentioned")] else [])
  }

  /** The quality warnings: `["OCR used" if text_source != "native" else ""]` with the
      empty strings dropped. */
  function Warnings(textSource: string): seq<string> {
    Filter([if textSource != Native then OcrWarning else ""], NonEmpty)
  }

  /** A letter that needed OCR on any page carries the single warning "OCR used"; a
      native one carries none. */
  lemma WarningsSpec(textSource: string)
    ensures textSource != Native ==> Warnings(textSource) == [OcrWarning]
    ensures textSource == Native ==> Warnings(textSource) == []
  {
    assert [if textSource != Native then OcrWarning else ""][..0] == [];
  }

  /** The outcome of `build_decision`; `Failure` where the source raises. */
  function DecisionOf(letter: NormalizedLetter, catalog: DepartmentsCatalog, candidates: seq<CandidateDepartment>,
                      rulesContext: RulesContext, routing: RoutingDecision, processingTimeMs: int): Result<Decision>
  {
    match FinalIds(routing, candidates)
    case None => Failure(IndexOutOfRange)
    case Some(ids) =>
      var textSource := DeriveTextSource(letter);
      var reasons := ReviewReasons(rulesContext, routing);
      Success(Decision(
        letter.requestId, letter.createdAt, letter.sourceChannel, letter.filename, |letter.pages|, letter.metadata,
        textSource, PageMap(letter.pages), if textSource != Native then 0.7 else 0.95, Warnings(textSource),
        EnsureSummary(letter), letter.topics, Organizations(letter),
        Suggestions(candidates, rulesContext, MaxScore(candidates)), ids, routing.confidence, routing.comment,
        NeedsHumanReview(reasons, routing.confidence), reasons, catalog.catalogVersion, processingTimeMs))
  }

  const IndexOutOfRange := "list index out of range"

  /** `build_decision` fails exactly when neither the routing decision nor the candidate
      list names a department. Otherwise: the text source and its OCR confidence and
      warning; a page map chained over the page texts; the summary; one suggestion per
      candidate, scaled by the top score; the final department ids (the decision's own,
      else the top candidate's); the review reasons (the rules' then the fallback reason)
      and the review flag they and the confidence imply; and the catalog version. */
  lemma DecisionSpec(letter: NormalizedLetter, catalog: DepartmentsCatalog, candidates: seq<CandidateDepartment>,
                     rulesContext: RulesContext, routing: RoutingDecision, processingTimeMs: int)
    ensures var r := DecisionOf(letter, catalog, candidates, rulesContext, routing, processingTimeMs);
      && (r.Failure? <==> routing.departmentIds == [] && candidates == [])
      && (r.Success? ==>
        var d := r.value;
        && (d.textSource == Native <==> forall i :: 0 <= i < |letter.pages| ==> !OcrUsed(letter.pages[i]))
        && (d.textSource == Ocr <==> letter.pages != [] && forall i :: 0 <= i < |letter.pages| ==> OcrUsed(letter.pages[i]))
        && (d.textSource != Native ==> d.ocrConfidence == 0.7 && d.warnings == [OcrWarning])
        && (d.textSource == Native ==> d.ocrConfidence == 0.95 && d.warnings == [])
        && ChainedSpans(PageTexts(letter.pages), d.pageMap)
        && d.summary == EnsureSummary(letter)
        && |d.suggestions| == |candidates|
        && (forall i :: 0 <= i < |candidates| ==>
              d.suggestions[i] == SuggestionFor(candidates[i], rulesContext, MaxScore(candidates)))
        && d.finalDepartmentIds != []
        && (routing.departmentIds != [] ==> d.finalDepartmentIds == routing.departmentIds)
        && (routing.departmentIds == [] ==> d.finalDepartmentIds == [candidates[0].departmentId])
        && d.finalConfidence == routing.confidence && d.finalComment == routing.comment
        && rulesContext.reviewReasons <= d.reviewReasons
        && (Truthy(routing.fallbackReason) ==> d.reviewReasons == rulesContext.reviewReasons + [routing.fallbackReason.value])
        && (!Truthy(routing.fallbackReason) ==> d.reviewReasons == rulesContext.reviewReasons)
        && (d.needsHumanReview <==> d.reviewReasons != [] || routing.confidence < 0.4)
        && d.catalogVersion == catalog.catalogVersion
        && d.requestId == letter.requestId && d.topics == letter.topics && d.pageCount == |letter.pages|)
  {
    var r := DecisionOf(letter, catalog, candidates, rulesContext, routing, processingTimeMs);
    if r.Success? {
      TextSourceSpec(letter);
      WarningsSpec(DeriveTextSource(letter));
      PageMapChained(letter.pages);
      SuggestionsAt(candidates, rulesContext, MaxScore(candidates));
    }
  }

  /** `build_decision` */
  method BuildDecision(letter: NormalizedLetter, catalog: DepartmentsCatalog, candidates: seq<CandidateDepartment>,
                       rulesContext: RulesContext, routing: RoutingDecision, processingTimeMs: int)
    returns (r: Result<Decision>)
    ensures r == DecisionOf(letter, catalog, candidates, rulesContext, routing, processingTimeMs)
  {
    var textSource := DeriveTextSource(letter);
    var maxScore := MaxScore(candidates);
    var summary := EnsureSummary(letter);
    var organizations: seq<Organization> := [];
    if Truthy(letter.issuer) {
      organizations := organizations + [Organization(letter.issuer.value, "sender")];
    }
    if Truthy(letter.addressee) {
      organizations := organizations + [Organization(letter.addressee.value, "mentioned")];
    }
    assert organizations == Organizations(letter);
    var reviewReasons := rulesContext.reviewReasons;
    if Truthy(routing.fallbackReason) {
      reviewReasons := reviewReasons + [routing.fallbackReason.value];
    }
    assert reviewReasons == ReviewReasons(rulesContext, routing);
    var pageMap := BuildPageMap(letter);
    var suggestions := BuildSuggestions(candidates, rulesContext, maxScore);
    var finalIds: seq<string>;
    if routing.departmentIds != [] {
      finalIds := routing.departmentIds;
    } else if candidates != [] {
      finalIds := [candidates[0].departmentId];
    } else {
      return Failure(IndexOutOfRange);
    }
    var warnings := [if textSource != Native then OcrWarning else ""];
    warnings := Filter(warnings, NonEmpty);
    var needsReview := reviewReasons != [] || routing.confidence < ReviewThreshold;
    r := Success(Decision(
      letter.requestId, letter.createdAt, letter.sourceChannel, letter.filename, |letter.pages|, letter.metadata,
      textSource, pageMap, if textSource != Native then 0.7 else 0.95, warnings, summary, letter.topics,
      organizations, suggestions, finalIds, routing.confidence, routing.comment, needsReview, reviewReasons,
      catalog.catalogVersion, processingTimeMs));
  }

  /** Routing with "llm_assisted" always sends the letter to a human: the stubbed model
      records the fallback reason "llm_not_configured", which becomes the last review reason. */
  lemma LlmAssistedNeedsReview(letter: NormalizedLetter, catalog: DepartmentsCatalog, candidates: seq<CandidateDepartment>,
                               rulesContext: RulesContext, processingTimeMs: int)
    requires candidates != []
    ensures var routing := LlmDecider.DecideRouting(candidates, rulesContext, LlmDecider.LlmAssisted);
      var r := DecisionOf(letter, catalog, candidates, rulesContext, routing, processingTimeMs);
      && r.Success?
      && r.value.needsHumanReview
      && r.value.reviewReasons == rulesContext.reviewReasons + [LlmDecider.LlmNotConfigured]
  {
    var routing := LlmDecider.DecideRouting(candidates, rulesContext, LlmDecider.LlmAssisted);
    DecisionSpec(letter, catalog, candidates, rulesContext, routing, processingTimeMs);
  }

  /** In heuristic mode the review flag is decided by the scores and the rules alone: with
      no rule asking for review, a letter is routed without review exactly when some
      candidate scored above zero. */
  lemma HeuristicReviewIff(letter: NormalizedLetter, catalog: DepartmentsCatalog, candidates: seq<CandidateDepartment>,
                           rulesContext: RulesContext, mode: string, processingTimeMs: int)
    requires candidates != [] && mode != LlmDecider.LlmAssisted
    ensures var routing := LlmDecider.DecideRouting(candidates, rulesContext, mode);
      var r := DecisionOf(letter, catalog, candidates, rulesContext, routing, processingTimeMs);
      && r.Success?
      && r.value.reviewReasons == rulesContext.reviewReasons
      && (rulesContext.reviewReasons == [] ==>
            (r.value.needsHumanReview <==> forall j :: 0 <= j < |candidates| ==> candidates[j].score <= 0))
  {
    var routing := LlmDecider.DecideRouting(candidates, rulesContext, mode);
    DecisionSpec(letter, catalog, candidates, rulesContext, routing, processingTimeMs);
  }

  /** With no candidates (an empty catalog) the routing decision names no department and
      `build_decision` fails on the empty candidate list, whatever the mode. */
  lemma NoCandidatesNoDecision(letter: NormalizedLetter, catalog: DepartmentsCatalog, rulesContext: RulesContext,
                               mode: string, processingTimeMs: int)
    ensures var routing := LlmDecider.DecideRouting([], rulesContext, mode);
      DecisionOf(letter, catalog, [], rulesContext, routing, processingTimeMs).Failure?
  {
    var routing := LlmDecider.DecideRouting([], rulesContext, mode);
    DecisionSpec(letter, catalog, [], rulesContext, routing, processingTimeMs);
  }

  /** For a letter merged from pages that all have text, the page map indexes the letter
      text: each page's span is exactly that page's text within it. */
  /** The page texts of the normalised pages are the items' page texts. */
  lemma PagesTexts(items: seq<InputAdapter.RawPage>)
    ensures PageTexts(InputAdapter.Pages(items)) == InputAdapter.PageTexts(items)
  {
    InputAdapter.PagesSpec(items);
    InputAdapter.PageTextsAt(items);
  }

  /** When every page has text, the page map of the pages locates each page's text inside
      the non-empty page texts joined with a blank line. */
  lemma PagesLocated(pages: seq<NormalizedPage>, texts: seq<string>)
    requires texts == PageTexts(pages)
    requires forall i :: 0 <= i < |texts| ==> texts[i] != ""
    ensures |PageMap(pages)| == |texts|
    ensures forall i :: 0 <= i < |texts| ==>
        && 0 <= PageMap(pages)[i].charStart <= PageMap(pages)[i].charEnd <= |Join(PageSeparator, Filter(texts, NonEmpty))|
        && Join(PageSeparator, Filter(texts, NonEmpty))[PageMap(pages)[i].charStart..PageMap(pages)[i].charEnd] == texts[i]
  {
    PageMapChained(pages);
    PageMapLocatesPages(texts, PageMap(pages));
  }

  /** When every page has text, the page map of a letter assembled from pages locates each
      page's text inside the letter text. */
  lemma MergedPageMapLocatesPages(items: seq<InputAdapter.RawPage>, sourceChannel: string, filename: string,
                                  requestId: Option<string>, createdAt: Option<string>,
                                  metadata: Option<map<string, string>>, freshId: string, now: string,
                                  letter: NormalizedLetter)
    requires letter == InputAdapter.LetterOf(items, sourceChannel, filename, requestId, createdAt, metadata, freshId, now)
    requires forall i :: 0 <= i < |items| ==> InputAdapter.PageText(items[i]) != ""
    ensures |PageMap(letter.pages)| == |items|
    ensures forall i :: 0 <= i < |items| ==>
        && 0 <= PageMap(letter.pages)[i].charStart <= PageMap(letter.pages)[i].charEnd <= |letter.cleanTextForLlm|
        && letter.cleanTextForLlm[PageMap(letter.pages)[i].charStart..PageMap(letter.pages)[i].charEnd]
           == InputAdapter.PageText(items[i])
  {
    var texts := InputAdapter.PageTexts(items);
    assert letter.cleanTextForLlm == Join(PageSeparator, Filter(texts, NonEmpty)) by {
      InputAdapter.CleanTextSpec(items);
    }
    assert PageTexts(letter.pages) == texts by {
      PagesTexts(items);
    }
    assert |texts| == |items| && forall i :: 0 <= i < |items| ==> texts[i] == InputAdapter.PageText(items[i]) by {
      InputAdapter.PageTextsAt(items);
    }
    TextsLocated(items, letter.pages, texts, letter.cleanTextForLlm);
  }

  lemma TextsLocated(items: seq<InputAdapter.RawPage>, pages: seq<NormalizedPage>, texts: seq<string>, joined: string)
    requires |texts| == |items| && forall i :: 0 <= i < |items| ==> texts[i] == InputAdapter.PageText(items[i])
    requires PageTexts(pages) == texts && joined == Join(PageSeparator, Filter(texts, NonEmpty))
    requires forall i :: 0 <= i < |items| ==> InputAdapter.PageText(items[i]) != ""
    ensures |PageMap(pages)| == |items|
    ensures forall i :: 0 <= i < |items| ==>
        && 0 <= PageMap(pages)[i].charStart <= PageMap(pages)[i].charEnd <= |joined|
        && joined[PageMap(pages)[i].charStart..PageMap(pages)[i].charEnd] == InputAdapter.PageText(items[i])
  {
    PagesLocated(pages, texts);
  }
}
