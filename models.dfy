/** The router's records (router/models.py). Python dictionaries whose values the
    router never inspects are modelled with string values. */
module Models {
  import opened Opt

  /** One page of a letter after normalisation. */
  datatype NormalizedPage = NormalizedPage(
    page: int,
    source: string,
    cleanTextForLlm: string,
    confidenceFlags: map<string, bool>)

  /** A whole letter: its pages, the header fields found on them and the joined text. */
  datatype NormalizedLetter = NormalizedLetter(
    requestId: string,
    createdAt: string,
    sourceChannel: string,
    filename: string,
    pages: seq<NormalizedPage>,
    subject: Option<string>,
    issuer: Option<string>,
    addressee: Option<string>,
    topics: seq<string>,
    attachments: seq<string>,
    cleanTextForLlm: string,
    metadata: map<string, string>)

  /** Declared for a lemma-based keyword index; no core code builds one. */
  datatype KeywordSpec = KeywordSpec(text: string, lemmas: seq<string>, anchors: seq<string>)

  /** A triage rule as read from the catalog: the `if_any` triggers and the `then` text,
      each possibly absent. */
  datatype TriageRule = TriageRule(ifAny: Option<seq<string>>, thenText: Option<string>)

  /** One department object of the catalog file as parsed from JSON; a `None` field is a
      missing key (or a JSON null). */
  datatype CatalogEntry = CatalogEntry(
    departmentId: Option<string>,
    departmentName: Option<string>,
    routingKeywords: Option<map<string, seq<string>>>,
    triageRules: Option<seq<TriageRule>>,
    outOfScope: Option<seq<string>>,
    catalogVersion: Option<string>)

  /** A validated department; `raw` is the catalog object it was built from. */
  datatype Department = Department(
    departmentId: string,
    departmentName: string,
    routingKeywords: map<string, seq<string>>,
    triageRules: seq<TriageRule>,
    raw: CatalogEntry,
    keywordIndex: map<string, seq<KeywordSpec>>)

  datatype DepartmentsCatalog = DepartmentsCatalog(departments: seq<Department>, catalogVersion: string)

  /** A scored department. Scores are integers: every weight of the scorer is integral. */
  datatype CandidateDepartment = CandidateDepartment(
    departmentId: string,
    departmentName: string,
    keywordHits: map<string, seq<string>>,
    score: int,
    scoreBreakdown: map<string, int>)

  /** What the triage rules produced for one letter. */
  datatype RulesContext = RulesContext(
    rulesTriggered: map<string, seq<string>>,
    priorityBoosts: map<string, int>,
    reviewReasons: seq<string>)

  datatype RoutingDecision = RoutingDecision(
    departmentIds: seq<string>,
    confidence: real,
    mode: string,
    comment: string,
    usedLlm: bool,
    fallbackReason: Option<string>)

  /** No two departments share an identifier (what the catalog loader guarantees). */
  predicate UniqueIds(deps: seq<Department>) {
    forall i, j :: 0 <= i < j < |deps| ==> deps[i].departmentId != deps[j].departmentId
  }

  /** The value a Python expression `x` has under `if x:` for an optional string. */
  predicate Truthy(s: Option<string>) {
    s.Some? && s.value != ""
  }

  /** `d.get(key, [])` */
  function ListAt(m: map<string, seq<string>>, key: string): seq<string> {
    if key in m then m[key] else []
  }

  /** The candidate's score, as the sort key of `retrieve_candidates`. */
  function ScoreOf(c: CandidateDepartment): int {
    c.score
  }
}
