/** Keyword scoring of every catalog department against the letter text
    (router/candidate_retrieval.py). */
module CandidateRetrieval {
  import opened Opt
  import opened Text
  import opened Seqs
  import opened StableSort
  import opened Models

  const HighPrecisionWeight: int := 3
  const MediumPrecisionWeight: int := 1
  const OutOfScopePenalty: int := 2

  const HighTier := "high_precision"
  const MediumTier := "medium_precision"
  const OutOfScopeTier := "out_of_scope"

  /** The keywords found in `text`, in keyword-list order. */
  function Matches(text: string, keywords: seq<string>): seq<string> {
    Filter(keywords, k => Occurs(text, k))
  }

  /** `_find_matches`: collects, in list order, exactly the keywords that occur in the text
      ignoring case; the result is a subsequence of the keyword list. */
  method FindMatches(text: string, keywords: seq<string>) returns (hits: seq<string>)
    ensures hits == Matches(text, keywords)
    ensures IsSubseq(hits, keywords)
    ensures forall i :: 0 <= i < |hits| ==> hits[i] in keywords && Occurs(text, hits[i])
    ensures forall i :: 0 <= i < |keywords| && Occurs(text, keywords[i]) ==> keywords[i] in hits
  {
    var lowered := Lower(text);
    hits := [];
    for i := 0 to |keywords|
      invariant hits == Matches(text, keywords[..i])
    {
      assert keywords[..i + 1][..i] == keywords[..i];
      if Contains(lowered, Lower(keywords[i])) {
        hits := hits + [keywords[i]];
      }
    }
    assert keywords[..|keywords|] == keywords;
    FilterIsSubseq(keywords, k => Occurs(text, k));
    FilterMembers(keywords, k => Occurs(text, k));
  }

  /** `len(high) * 3.0 + len(medium) * 1.0 - len(out_of_scope) * 2.0` */
  function Score(high: nat, medium: nat, outOfScope: nat): int {
    high * HighPrecisionWeight + medium * MediumPrecisionWeight - outOfScope * OutOfScopePenalty
  }

  /** The out-of-scope keywords, `department.raw.get("out_of_scope", [])`. */
  function OutOfScopeKeywords(d: Department): seq<string> {
    d.raw.outOfScope.GetOr([])
  }

  /** The candidate that `retrieve_candidates` builds for one department, before sorting. */
  function CandidateFor(text: string, d: Department): CandidateDepartment {
    var high := Matches(text, ListAt(d.routingKeywords, HighTier));
    var medium := Matches(text, ListAt(d.routingKeywords, MediumTier));
    var outOfScope := Matches(text, OutOfScopeKeywords(d));
    CandidateDepartment(
      d.departmentId,
      d.departmentName,
      map[HighTier := high, MediumTier := medium, OutOfScopeTier := outOfScope],
      Score(|high|, |medium|, |outOfScope|),
      map[])
  }

  /** A candidate's score is 3 per high-precision hit plus 1 per medium-precision hit minus
      2 per out-of-scope hit, so it lies between -2 x (out-of-scope keywords) and
      3 x (high keywords) + (medium keywords); a missing tier contributes nothing. */
  lemma CandidateScore(text: string, d: Department)
    ensures var c := CandidateFor(text, d);
      && c.keywordHits.Keys == {HighTier, MediumTier, OutOfScopeTier}
      && c.score == 3 * |c.keywordHits[HighTier]| + |c.keywordHits[MediumTier]| - 2 * |c.keywordHits[OutOfScopeTier]|
      && -2 * |OutOfScopeKeywords(d)| <= c.score
      && c.score <= 3 * |ListAt(d.routingKeywords, HighTier)| + |ListAt(d.routingKeywords, MediumTier)|
      && (HighTier !in d.routingKeywords ==> c.keywordHits[HighTier] == [])
      && (MediumTier !in d.routingKeywords ==> c.keywordHits[MediumTier] == [])
      && (d.raw.outOfScope.None? ==> c.keywordHits[OutOfScopeTier] == [])
      && c.scoreBreakdown == map[]
      && c.departmentId == d.departmentId && c.departmentName == d.departmentName
  {
  }

  /** The unsorted candidate list, one per department in catalog order. */
  function Scored(text: string, deps: seq<Department>): (r: seq<CandidateDepartment>)
    ensures |r| == |deps|
  {
    if deps == [] then [] else Scored(text, deps[..|deps| - 1]) + [CandidateFor(text, deps[|deps| - 1])]
  }

  lemma {:induction false} ScoredAt(text: string, deps: seq<Department>)
    ensures forall k :: 0 <= k < |deps| ==> Scored(text, deps)[k] == CandidateFor(text, deps[k])
  {
    if deps != [] {
      var deps' := deps[..|deps| - 1];
      ScoredAt(text, deps');
    }
  }

  /** Scoring one more department appends its candidate. */
  lemma ScoredSnoc(text: string, deps: seq<Department>, i: nat)
    requires i < |deps|
    ensures Scored(text, deps[..i + 1]) == Scored(text, deps[..i]) + [CandidateFor(text, deps[i])]
  {
    assert deps[..i + 1][..i] == deps[..i];
  }

  /** A permutation of the unsorted candidates holds exactly the departments' candidates. */
  lemma {:induction false} PermutedScored(text: string, deps: seq<Department>, c: seq<CandidateDepartment>)
    requires multiset(c) == multiset(Scored(text, deps))
    ensures forall k :: 0 <= k < |deps| ==> CandidateFor(text, deps[k]) in c
    ensures forall i :: 0 <= i < |c| ==> exists k :: 0 <= k < |deps| && c[i] == CandidateFor(text, deps[k])
  {
    var u := Scored(text, deps);
    ScoredAt(text, deps);
    forall k | 0 <= k < |deps| ensures CandidateFor(text, deps[k]) in c {
      assert u[k] in multiset(u);
    }
    forall i | 0 <= i < |c| ensures exists k :: 0 <= k < |deps| && c[i] == CandidateFor(text, deps[k]) {
      assert c[i] in multiset(c);
      var k :| 0 <= k < |u| && u[k] == c[i];
    }
  }

  /** `retrieve_candidates` returns one candidate per department and nothing else. */
  lemma RetrievedMembers(text: string, deps: seq<Department>)
    ensures var c := SortDesc(Scored(text, deps), ScoreOf);
      && |c| == |deps|
      && (forall k :: 0 <= k < |deps| ==> CandidateFor(text, deps[k]) in c)
      && (forall i :: 0 <= i < |c| ==> exists k :: 0 <= k < |deps| && c[i] == CandidateFor(text, deps[k]))
  {
    var u := Scored(text, deps);
    var c := SortDesc(u, ScoreOf);
    PermutedScored(text, deps, c);
  }

  /** `retrieve_candidates` orders candidates by score, non-increasing, and keeps catalog
      order among equal scores (the sort is stable). */
  lemma RetrievedOrder(text: string, deps: seq<Department>)
    ensures var c := SortDesc(Scored(text, deps), ScoreOf);
      && SortedDesc(c, ScoreOf)
      && (forall s :: KeyClass(c, ScoreOf, s) == KeyClass(Scored(text, deps), ScoreOf, s))
  {
  }

  /** `_find_matches` on the three tiers of one department, scored. */
  method ScoreDepartment(text: string, department: Department) returns (candidate: CandidateDepartment)
    ensures candidate == CandidateFor(text, department)
  {
    var keywords := department.routingKeywords;
    var highHits := FindMatches(text, ListAt(keywords, HighTier));
    var mediumHits := FindMatches(text, ListAt(keywords, MediumTier));
    var outOfScopeHits := FindMatches(text, OutOfScopeKeywords(department));
    var score := |highHits| * HighPrecisionWeight + |mediumHits| * MediumPrecisionWeight
                 - |outOfScopeHits| * OutOfScopePenalty;
    candidate := CandidateDepartment(
      department.departmentId,
      department.departmentName,
      map[HighTier := highHits, MediumTier := mediumHits, OutOfScopeTier := outOfScopeHits],
      score,
      map[]);
  }

  /** `retrieve_candidates`: one candidate per department, sorted by score, non-increasing;
      the list is a permutation of the per-department candidates and equal scores keep
      catalog order (the sort is stable). */
  method RetrieveCandidates(text: string, catalog: DepartmentsCatalog) returns (candidates: seq<CandidateDepartment>)
    ensures candidates == SortDesc(Scored(text, catalog.departments), ScoreOf)
  {
    var deps := catalog.departments;
    var unsorted: seq<CandidateDepartment> := [];
    for i := 0 to |deps|
      invariant unsorted == Scored(text, deps[..i])
    {
      var candidate := ScoreDepartment(text, deps[i]);
      ScoredSnoc(text, deps, i);
      unsorted := unsorted + [candidate];
    }
    assert deps[..|deps|] == deps;
    candidates := SortDesc(unsorted, ScoreOf);
  }
}
