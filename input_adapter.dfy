/** Merging of the per-page extraction results into one letter (router/input_adapter.py),
    over already parsed JSON values. The generated request id and the clock are
    parameters. */
module InputAdapter {
  import opened Opt
  import opened Text
  import opened Seqs
  import opened Models

  /** The `normalized` object of one page; a `None` field is a missing key. */
  datatype RawNormalized = RawNormalized(
    subject: Option<string>,
    issuer: Option<string>,
    addressee: Option<string>,
    topics: Option<seq<string>>,
    attachments: Option<seq<string>>,
    cleanTextForLlm: Option<string>,
    confidenceFlags: Option<map<string, bool>>)

  /** One item of the pages file; a `None` field is a missing key. */
  datatype RawPage = RawPage(page: Option<int>, source: Option<string>, normalized: Option<RawNormalized>)

  /** The parsed pages file: a list of items or any other JSON value. */
  datatype PagesPayload = PageList(items: seq<RawPage>) | NotAList

  const NotAPageList := "Expected payload to be a list of pages from 1.json"
  const OcrSource := "ocr"
  const UnknownSource := "unknown"
  const OcrUsedFlag := "ocr_used"
  const PageSeparator := "\n\n"
  const RequestPrefix := "REQ-"

  /** `load_raw_pages`: a list is returned as it is, anything else is an error. */
  function LoadRawPages(payload: PagesPayload): (r: Result<seq<RawPage>>)
    ensures r.Failure? <==> payload.NotAList?
    ensures r.Failure? ==> r.error == NotAPageList
    ensures payload.PageList? ==> r == Success(payload.items)
  {
    match payload
    case PageList(items) => Success(items)
    case NotAList => Failure(NotAPageList)
  }

  /** `item.get("normalized", {})` */
  function Normalized(item: RawPage): RawNormalized {
    item.normalized.GetOr(RawNormalized(None, None, None, None, None, None, None))
  }

  /** The three header fields taken from the first page that has them. */
  datatype HeaderField = Subject | Issuer | Addressee

  function Header(n: RawNormalized, field: HeaderField): Option<string> {
    match field
    case Subject => n.subject
    case Issuer => n.issuer
    case Addressee => n.addressee
  }

  /** The two lists merged across pages. */
  datatype ListField = Topics | Attachments

  /** `normalized.get(field, []) or []` */
  function ListOf(n: RawNormalized, field: ListField): seq<string> {
    match field
    case Topics => n.topics.GetOr([])
    case Attachments => n.attachments.GetOr([])
  }

  /** `normalized.get("clean_text_for_llm", "")` */
  function PageText(item: RawPage): string {
    Normalized(item).cleanTextForLlm.GetOr("")
  }

  /** The truthy values of a header field, in page order. */
  function HeaderValues(items: seq<RawPage>, field: HeaderField): seq<string> {
    if items == [] then []
    else
      var v := Header(Normalized(items[|items| - 1]), field);
      HeaderValues(items[..|items| - 1], field) + (if Truthy(v) then [v.value] else [])
  }

  /** `values[0] if values else None` over the truthy values of a header field. */
  function FirstHeader(items: seq<RawPage>, field: HeaderField): Option<string> {
    var values := HeaderValues(items, field);
    if values != [] then Some(values[0]) else None
  }

  /** Every list of `field`, concatenated in page order. */
  function AllListed(items: seq<RawPage>, field: ListField): seq<string> {
    if items == [] then [] else AllListed(items[..|items| - 1], field) + ListOf(Normalized(items[|items| - 1]), field)
  }

  /** The texts of the pages, in page order. */
  function PageTexts(items: seq<RawPage>): (r: seq<string>)
    ensures |r| == |items|
  {
    if items == [] then [] else PageTexts(items[..|items| - 1]) + [PageText(items[|items| - 1])]
  }

  lemma {:induction false} PageTextsAt(items: seq<RawPage>)
    ensures forall i :: 0 <= i < |items| ==> PageTexts(items)[i] == PageText(items[i])
  {
    if items != [] {
      PageTextsAt(items[..|items| - 1]);
      assert forall i :: 0 <= i < |items| - 1 ==> items[..|items| - 1][i] == items[i];
    }
  }

  /** The confidence flags of a page: the given ones, with `ocr_used` added, when it is
      missing, as whether the item's source is "ocr". */
  function PageFlags(item: RawPage): map<string, bool> {
    var flags := Normalized(item).confidenceFlags.GetOr(map[]);
    if OcrUsedFlag in flags then flags else flags[OcrUsedFlag := item.source == Some(OcrSource)]
  }

  /** The normalised page built from one item. */
  function PageOf(item: RawPage): NormalizedPage {
    NormalizedPage(
      if item.page.Some? then item.page.value else 0,
      if Truthy(item.source) then item.source.value else UnknownSource,
      PageText(item),
      PageFlags(item))
  }

  function Pages(items: seq<RawPage>): (r: seq<NormalizedPage>)
    ensures |r| == |items|
  {
    if items == [] then [] else Pages(items[..|items| - 1]) + [PageOf(items[|items| - 1])]
  }

  /** The letter `normalized_letter_from_pages` returns, given the request id the source
      would generate and the current time. */
  function LetterOf(items: seq<RawPage>, sourceChannel: string, filename: string, requestId: Option<string>,
                    createdAt: Option<string>, metadata: Option<map<string, string>>,
                    freshId: string, now: string): NormalizedLetter
  {
    NormalizedLetter(
      if Truthy(requestId) then requestId.value else RequestPrefix + freshId,
      if Truthy(createdAt) then createdAt.value else now,
      sourceChannel,
      filename,
      Pages(items),
      FirstHeader(items, Subject),
      FirstHeader(items, Issuer),
      FirstHeader(items, Addressee),
      AppendNew([], AllListed(items, Topics)),
      AppendNew([], AllListed(items, Attachments)),
      Join(PageSeparator, Filter(Filter(PageTexts(items), NonEmpty), NonEmpty)),
      if metadata.Some? then metadata.value else map[])
  }

  /** There is one page per item, in order; the page number defaults to 0 and the source
      to "unknown"; an `ocr_used` flag already present is kept, and a missing one is set
      to whether the source is "ocr"; the other flags are kept. */
  lemma {:induction false} PagesSpec(items: seq<RawPage>)
    ensures |Pages(items)| == |items|
    ensures forall i :: 0 <= i < |items| ==> Pages(items)[i] == PageOf(items[i])
    ensures forall i :: 0 <= i < |items| ==>
      var p, item := Pages(items)[i], items[i];
      var given := Normalized(item).confidenceFlags.GetOr(map[]);
      && (item.page.None? ==> p.page == 0)
      && (item.page.Some? ==> p.page == item.page.value)
      && (!Truthy(item.source) ==> p.source == UnknownSource)
      && p.cleanTextForLlm == PageText(item)
      && OcrUsedFlag in p.confidenceFlags
      && (OcrUsedFlag in given ==> p.confidenceFlags == given)
      && (OcrUsedFlag !in given ==> p.confidenceFlags[OcrUsedFlag] == (item.source == Some(OcrSource)))
      && (forall k :: k in given ==> k in p.confidenceFlags && p.confidenceFlags[k] == given[k])
  {
    if items != [] {
      PagesSpec(items[..|items| - 1]);
      assert forall i :: 0 <= i < |items| - 1 ==> items[..|items| - 1][i] == items[i];
    }
  }

  /** The truthy values of a header field are those of the pages where it is truthy, in
      page order; so the first of them comes from the first such page. */
  lemma {:induction false} HeaderValuesSpec(items: seq<RawPage>, field: HeaderField)
    ensures var vs := HeaderValues(items, field);
      && (vs == [] <==> forall i :: 0 <= i < |items| ==> !Truthy(Header(Normalized(items[i]), field)))
      && (vs != [] ==> exists i :: 0 <= i < |items| && Header(Normalized(items[i]), field) == Some(vs[0])
                                && forall k :: 0 <= k < i ==> !Truthy(Header(Normalized(items[k]), field)))
  {
    if items != [] {
      var init := items[..|items| - 1];
      HeaderValuesSpec(init, field);
      assert forall i :: 0 <= i < |init| ==> init[i] == items[i];
      var vs, vs' := HeaderValues(items, field), HeaderValues(init, field);
      if vs' != [] {
        assert vs[0] == vs'[0];
      } else if vs != [] {
        assert Header(Normalized(items[|items| - 1]), field) == Some(vs[0]);
      }
    }
  }

  /** Subject, issuer and addressee are each the first non-empty value across the pages,
      or absent when no page has one. */
  lemma FirstHeaderSpec(items: seq<RawPage>, field: HeaderField)
    ensures FirstHeader(items, field).None? <==> forall i :: 0 <= i < |items| ==> !Truthy(Header(Normalized(items[i]), field))
    ensures FirstHeader(items, field).Some? ==>
      && FirstHeader(items, field).value != ""
      && exists i :: 0 <= i < |items| && Header(Normalized(items[i]), field) == FirstHeader(items, field)
                   && forall k :: 0 <= k < i ==> !Truthy(Header(Normalized(items[k]), field))
  {
    HeaderValuesSpec(items, field);
    var vs := HeaderValues(items, field);
    if vs != [] {
      var i :| 0 <= i < |items| && Header(Normalized(items[i]), field) == Some(vs[0])
               && forall k :: 0 <= k < i ==> !Truthy(Header(Normalized(items[k]), field));
      HeaderValueAt(items, field, i);
    }
  }

  /** A header value that is picked up is non-empty. */
  lemma {:induction false} HeaderValueAt(items: seq<RawPage>, field: HeaderField, i: nat)
    requires i < |items| && forall k :: 0 <= k < i ==> !Truthy(Header(Normalized(items[k]), field))
    requires HeaderValues(items, field) != [] && Header(Normalized(items[i]), field) == Some(HeaderValues(items, field)[0])
    ensures HeaderValues(items, field)[0] != ""
  {
    var init := items[..|items| - 1];
    if HeaderValues(init, field) != [] {
      assert forall k :: 0 <= k < |init| ==> init[k] == items[k];
      HeaderValuesNonEmpty(init, field);
    }
  }

  lemma {:induction false} HeaderValuesNonEmpty(items: seq<RawPage>, field: HeaderField)
    ensures forall k :: 0 <= k < |HeaderValues(items, field)| ==> HeaderValues(items, field)[k] != ""
  {
    if items != [] {
      HeaderValuesNonEmpty(items[..|items| - 1], field);
    }
  }

  /** Topics and attachments hold no duplicates, every listed value, nothing else, and keep
      the order in which values are first seen across the pages. */
  lemma MergedListSpec(items: seq<RawPage>, field: ListField)
    ensures var all := AllListed(items, field);
      var r := AppendNew([], all);
      && NoDup(r)
      && (forall i :: 0 <= i < |r| ==> r[i] in all)
      && (forall i :: 0 <= i < |all| ==> all[i] in r)
      && FirstSeenOrder(r, all)
  {
    var all := AllListed(items, field);
    AppendNewMembers([], all);
    AppendNewFirstSeen(all);
  }

  /** The letter text is the non-empty page texts joined with a blank line. */
  lemma CleanTextSpec(items: seq<RawPage>)
    ensures Join(PageSeparator, Filter(Filter(PageTexts(items), NonEmpty), NonEmpty))
         == Join(PageSeparator, Filter(PageTexts(items), NonEmpty))
  {
    var blocks := Filter(PageTexts(items), NonEmpty);
    FilterMembers(PageTexts(items), NonEmpty);
    FilterAll(blocks, NonEmpty);
  }

  /** A request id, creation time or metadata given by the caller is used as it is; the
      generated id is "REQ-" followed by the fresh identifier. */
  lemma LetterFieldsSpec(items: seq<RawPage>, sourceChannel: string, filename: string, requestId: Option<string>,
                         createdAt: Option<string>, metadata: Option<map<string, string>>, freshId: string, now: string)
    ensures var l := LetterOf(items, sourceChannel, filename, requestId, createdAt, metadata, freshId, now);
      && (Truthy(requestId) ==> l.requestId == requestId.value)
      && (!Truthy(requestId) ==> l.requestId == RequestPrefix + freshId)
      && (Truthy(createdAt) ==> l.createdAt == createdAt.value)
      && (!Truthy(createdAt) ==> l.createdAt == now)
      && (metadata.Some? ==> l.metadata == metadata.value)
      && (metadata.None? ==> l.metadata == map[])
      && l.sourceChannel == sourceChannel && l.filename == filename
      && |l.pages| == |items|
  {
  }

  /** Taking one more item extends each accumulated list by that item's contribution. */
  lemma MergeStep(items: seq<RawPage>, i: nat)
    requires i < |items|
    ensures var n, prefix, next := Normalized(items[i]), items[..i], items[..i + 1];
      && (forall f :: HeaderValues(next, f) == HeaderValues(prefix, f) + (if Truthy(Header(n, f)) then [Header(n, f).value] else []))
      && (forall f :: AllListed(next, f) == AllListed(prefix, f) + ListOf(n, f))
      && PageTexts(next) == PageTexts(prefix) + [PageText(items[i])]
      && Pages(next) == Pages(prefix) + [PageOf(items[i])]
  {
    assert items[..i + 1][..i] == items[..i];
  }

  /** `normalized_letter_from_pages` */
  method NormalizedLetterFromPages(pagesPayload: seq<RawPage>, sourceChannel: string, filename: string,
                                   requestId: Option<string>, createdAt: Option<string>,
                                   metadata: Option<map<string, string>>, freshId: string, now: string)
    returns (letter: NormalizedLetter)
    ensures letter == LetterOf(pagesPayload, sourceChannel, filename, requestId, createdAt, metadata, freshId, now)
  {
    var items := pagesPayload;
    var subjects: seq<string> := [];
    var issuers: seq<string> := [];
    var addressees: seq<string> := [];
    var topics: seq<string> := [];
    var attachments: seq<string> := [];
    var cleanTextBlocks: seq<string> := [];
    var pages: seq<NormalizedPage> := [];
    for i := 0 to |items|
      invariant subjects == HeaderValues(items[..i], Subject)
      invariant issuers == HeaderValues(items[..i], Issuer)
      invariant addressees == HeaderValues(items[..i], Addressee)
      invariant topics == AppendNew([], AllListed(items[..i], Topics))
      invariant attachments == AppendNew([], AllListed(items[..i], Attachments))
      invariant cleanTextBlocks == Filter(PageTexts(items[..i]), NonEmpty)
      invariant pages == Pages(items[..i])
    {
      MergeStep(items, i);
      var item := items[i];
      var normalized := Normalized(item);
      if Truthy(normalized.subject) {
        subjects := subjects + [normalized.subject.value];
      }
      assert subjects == HeaderValues(items[..i + 1], Subject);
      if Truthy(normalized.issuer) {
        issuers := issuers + [normalized.issuer.value];
      }
      assert issuers == HeaderValues(items[..i + 1], Issuer);
      if Truthy(normalized.addressee) {
        addressees := addressees + [normalized.addressee.value];
      }
      assert addressees == HeaderValues(items[..i + 1], Addressee);
      topics := MergeNew(topics, ListOf(normalized, Topics));
      AppendNewConcat([], AllListed(items[..i], Topics), ListOf(normalized, Topics));
      attachments := MergeNew(attachments, ListOf(normalized, Attachments));
      AppendNewConcat([], AllListed(items[..i], Attachments), ListOf(normalized, Attachments));
      var pageText := PageText(item);
      if pageText != "" {
        cleanTextBlocks := cleanTextBlocks + [pageText];
      }
      assert cleanTextBlocks == Filter(PageTexts(items[..i + 1]), NonEmpty) by {
        FilterAppend(PageTexts(items[..i]), [pageText], NonEmpty);
        assert [pageText][..0] == [];
      }
      var page := NormalizePage(item);
      pages := pages + [page];
    }
    assert items[..|items|] == items;
    var subject := if subjects != [] then Some(subjects[0]) else None;
    var issuer := if issuers != [] then Some(issuers[0]) else None;
    var addressee := if addressees != [] then Some(addressees[0]) else None;
    var cleanText := Join(PageSeparator, Filter(cleanTextBlocks, NonEmpty));
    letter := NormalizedLetter(
      if Truthy(requestId) then requestId.value else RequestPrefix + freshId,
      if Truthy(createdAt) then createdAt.value else now,
      sourceChannel, filename, pages, subject, issuer, addressee, topics, attachments, cleanText,
      if metadata.Some? then metadata.value else map[]);
  }

  /** The page record built inside the loop of `normalized_letter_from_pages`. */
  method NormalizePage(item: RawPage) returns (page: NormalizedPage)
    ensures page == PageOf(item)
  {
    var normalized := Normalized(item);
    var pageText := PageText(item);
    var confidenceFlags := normalized.confidenceFlags.GetOr(map[]);
    if OcrUsedFlag !in confidenceFlags {
      confidenceFlags := confidenceFlags[OcrUsedFlag := item.source == Some(OcrSource)];
    }
    var pageNumber := if item.page.Some? then item.page.value else 0;
    var source := if Truthy(item.source) then item.source.value else UnknownSource;
    page := NormalizedPage(pageNumber, source, pageText, confidenceFlags);
  }

  /** `for x in xs: if x not in acc: acc.append(x)` */
  method MergeNew(acc: seq<string>, xs: seq<string>) returns (r: seq<string>)
    ensures r == AppendNew(acc, xs)
  {
    r := acc;
    for j := 0 to |xs|
      invariant r == AppendNew(acc, xs[..j])
    {
      assert xs[..j + 1] == xs[..j] + [xs[j]];
      AppendNewConcat(acc, xs[..j], [xs[j]]);
      AppendNewOne(r, xs[j]);
      if xs[j] !in r {
        r := r + [xs[j]];
      }
    }
    assert xs[..|xs|] == xs;
  }
}
