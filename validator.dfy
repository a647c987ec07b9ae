/** Checking that a decision only names catalog departments (router/validator.py). The
    JSON-schema check is a library call; its list of error messages is a parameter. */
module Validator {
  import opened Opt
  import opened Text
  import opened Seqs
  import opened Models
  import CandidateRetrieval
  import StableSort
  import LlmDecider
  import DecisionBuilder

  /** The department references of a decision document: the id of each suggestion (absent
      when the key is missing) and the final recommendation's ids. */
  datatype DecisionRefs = DecisionRefs(suggestionIds: seq<Option<string>>, finalIds: seq<string>)

  const SchemaFailed := "Schema validation failed:\n"
  const UnknownDepartment := "Unknown department_id in decision: "

  /** `{dept.department_id for dept in catalog.departments}` */
  function ValidIds(catalog: DepartmentsCatalog): set<string> {
    set d | d in catalog.departments :: d.departmentId
  }

  /** The suggestion ids that are set, non-empty and unknown, in order. */
  function MissingSuggested(ids: seq<Option<string>>, valid: set<string>): seq<string> {
    if ids == [] then []
    else
      var id := ids[|ids| - 1];
      MissingSuggested(ids[..|ids| - 1], valid) + (if Truthy(id) && id.value !in valid then [id.value] else [])
  }

  /** The final ids that are unknown, in order. */
  function MissingFinal(ids: seq<string>, valid: set<string>): seq<string> {
    if ids == [] then []
    else MissingFinal(ids[..|ids| - 1], valid) + (if ids[|ids| - 1] !in valid then [ids[|ids| - 1]] else [])
  }

  /** What `validate_departments` returns. */
  function MissingIds(refs: DecisionRefs, catalog: DepartmentsCatalog): seq<string> {
    MissingSuggested(refs.suggestionIds, ValidIds(catalog)) + MissingFinal(refs.finalIds, ValidIds(catalog))
  }

  lemma {:induction false} MissingSuggestedSpec(ids: seq<Option<string>>, valid: set<string>)
    ensures forall k :: 0 <= k < |MissingSuggested(ids, valid)| ==>
      MissingSuggested(ids, valid)[k] !in valid && Some(MissingSuggested(ids, valid)[k]) in ids
    ensures forall i :: 0 <= i < |ids| && Truthy(ids[i]) && ids[i].value !in valid ==>
      ids[i].value in MissingSuggested(ids, valid)
    ensures forall k :: 0 <= k < |MissingSuggested(ids, valid)| ==> MissingSuggested(ids, valid)[k] != ""
  {
    if ids != [] {
      var init := ids[..|ids| - 1];
      MissingSuggestedSpec(init, valid);
      assert forall i :: 0 <= i < |init| ==> init[i] == ids[i];
    }
  }

  lemma {:induction false} MissingFinalSpec(ids: seq<string>, valid: set<string>)
    ensures forall k :: 0 <= k < |MissingFinal(ids, valid)| ==>
      MissingFinal(ids, valid)[k] !in valid && MissingFinal(ids, valid)[k] in ids
    ensures forall i :: 0 <= i < |ids| && ids[i] !in valid ==> ids[i] in MissingFinal(ids, valid)
  {
    if ids != [] {
      var init := ids[..|ids| - 1];
      MissingFinalSpec(init, valid);
      assert forall i :: 0 <= i < |init| ==> init[i] == ids[i];
    }
  }

  /** Every reported id is unknown to the catalog and referenced by the decision; every
      unknown non-empty suggestion id and every unknown final id is reported, the
      suggestions' first; empty or missing suggestion ids are never reported. The list is
      empty exactly when every reference belongs to the catalog. */
  lemma MissingIdsSpec(refs: DecisionRefs, catalog: DepartmentsCatalog)
    ensures var missing := MissingIds(refs, catalog);
      var valid := ValidIds(catalog);
      && (forall k :: 0 <= k < |missing| ==>
            missing[k] !in valid && (Some(missing[k]) in refs.suggestionIds || missing[k] in refs.finalIds))
      && (forall i :: 0 <= i < |refs.suggestionIds| && Truthy(refs.suggestionIds[i]) && refs.suggestionIds[i].value !in valid ==>
            refs.suggestionIds[i].value in missing)
      && (forall i :: 0 <= i < |refs.finalIds| && refs.finalIds[i] !in valid ==> refs.finalIds[i] in missing)
      && !("" in MissingSuggested(refs.suggestionIds, valid))
      && (missing == [] <==>
            && (forall i :: 0 <= i < |refs.suggestionIds| && Truthy(refs.suggestionIds[i]) ==> refs.suggestionIds[i].value in valid)
            && (forall i :: 0 <= i < |refs.finalIds| ==> refs.finalIds[i] in valid))
  {
    var valid := ValidIds(catalog);
    var fromSuggestions, fromFinal := MissingSuggested(refs.suggestionIds, valid), MissingFinal(refs.finalIds, valid);
    MissingSuggestedSpec(refs.suggestionIds, valid);
    MissingFinalSpec(refs.finalIds, valid);
    var missing := MissingIds(refs, catalog);
    assert missing == fromSuggestions + fromFinal;
    if fromSuggestions != [] {
      var x := fromSuggestions[0];
      var i :| 0 <= i < |refs.suggestionIds| && refs.suggestionIds[i] == Some(x);
      assert Truthy(refs.suggestionIds[i]) && refs.suggestionIds[i].value !in valid;
    } else if fromFinal != [] {
      var x := fromFinal[0];
      var i :| 0 <= i < |refs.finalIds| && refs.finalIds[i] == x;
    }
  }

  /** `validate_departments` */
  method ValidateDepartments(refs: DecisionRefs, catalog: DepartmentsCatalog) returns (missing: seq<string>)
    ensures missing == MissingIds(refs, catalog)
  {
    var validIds := set d | d in catalog.departments :: d.departmentId;
    missing := [];
    var suggestions := refs.suggestionIds;
    for i := 0 to |suggestions|
      invariant missing == MissingSuggested(suggestions[..i], validIds)
    {
      assert suggestions[..i + 1][..i] == suggestions[..i];
      var departmentId := suggestions[i];
      if Truthy(departmentId) && departmentId.value !in validIds {
        missing := missing + [departmentId.value];
      }
    }
    assert suggestions[..|suggestions|] == suggestions;
    ghost var fromSuggestions := missing;
    var finalIds := refs.finalIds;
    for i := 0 to |finalIds|
      invariant missing == fromSuggestions + MissingFinal(finalIds[..i], validIds)
    {
      assert finalIds[..i + 1][..i] == finalIds[..i];
      if finalIds[i] !in validIds {
        missing := missing + [finalIds[i]];
      }
    }
    assert finalIds[..|finalIds|] == finalIds;
  }

  /** Python's `<` on strings: lexicographic by code point, a proper prefix first. */
  predicate StrLess(a: string, b: string)
    decreases |a|
  {
    if a == [] then b != []
    else b != [] && (a[0] < b[0] || (a[0] == b[0] && StrLess(a[1..], b[1..])))
  }

  lemma {:induction false} StrLessIrreflexive(a: string)
    ensures !StrLess(a, a)
    decreases |a|
  {
    if a != [] {
      StrLessIrreflexive(a[1..]);
    }
  }

  lemma {:induction false} StrLessTransitive(a: string, b: string, c: string)
    requires StrLess(a, b) && StrLess(b, c)
    ensures StrLess(a, c)
    decreases |a|
  {
    if a != [] && a[0] == b[0] && b[0] == c[0] {
      StrLessTransitive(a[1..], b[1..], c[1..]);
    }
  }

  lemma {:induction false} StrLessTotal(a: string, b: string)
    ensures a == b || StrLess(a, b) || StrLess(b, a)
    decreases |a|
  {
    if a != [] && b != [] && a[0] == b[0] {
      StrLessTotal(a[1..], b[1..]);
      if a[1..] == b[1..] {
        assert a == [a[0]] + a[1..] && b == [b[0]] + b[1..];
      }
    }
  }

  /** Strictly increasing, hence without duplicates. */
  predicate StrictlySorted(s: seq<string>) {
    forall i, j :: 0 <= i < j < |s| ==> StrLess(s[i], s[j])
  }

  /** `x` put into its place in a strictly sorted list, unless already there. */
  function InsertUnique(x: string, s: seq<string>): (r: seq<string>)
    ensures forall y :: y in r <==> y == x || y in s
  {
    if s == [] then [x]
    else if StrLess(s[0], x) then [s[0]] + InsertUnique(x, s[1..])
    else if s[0] == x then s
    else [x] + s
  }

  lemma {:induction false} InsertUniqueSorted(x: string, s: seq<string>)
    requires StrictlySorted(s)
    ensures StrictlySorted(InsertUnique(x, s))
  {
    if s != [] {
      var r := InsertUnique(x, s);
      if StrLess(s[0], x) {
        assert StrictlySorted(s[1..]) by {
          assert forall i :: 0 <= i < |s| - 1 ==> s[1..][i] == s[i + 1];
        }
        InsertUniqueSorted(x, s[1..]);
        var rest := InsertUnique(x, s[1..]);
        forall y | y in rest ensures StrLess(s[0], y) {
          if y != x {
            var k :| 0 <= k < |s[1..]| && s[1..][k] == y;
            assert s[k + 1] == y;
          }
        }
        forall i, j | 0 <= i < j < |r| ensures StrLess(r[i], r[j]) {
          if i > 0 {
            assert r[i] == rest[i - 1] && r[j] == rest[j - 1];
          } else {
            assert r[j] == rest[j - 1] && rest[j - 1] in rest;
          }
        }
      } else if s[0] != x {
        StrLessTotal(s[0], x);
        forall i, j | 0 <= i < j < |r| ensures StrLess(r[i], r[j]) {
          if i > 0 {
            assert r[i] == s[i - 1] && r[j] == s[j - 1];
          } else if j > 1 {
            assert r[j] == s[j - 1];
            StrLessTransitive(x, s[0], s[j - 1]);
          }
        }
      }
    }
  }

  /** `sorted(set(xs))` */
  function SortedUnique(xs: seq<string>): (r: seq<string>)
    ensures forall y :: y in r <==> y in xs
  {
    if xs == [] then [] else InsertUnique(xs[|xs| - 1], SortedUnique(xs[..|xs| - 1]))
  }

  /** The sorted list of distinct values is strictly increasing (so it has no duplicates)
      and holds exactly the values of the input. */
  lemma {:induction false} SortedUniqueSpec(xs: seq<string>)
    ensures StrictlySorted(SortedUnique(xs))
    ensures NoDup(SortedUnique(xs))
    ensures forall y :: y in SortedUnique(xs) <==> y in xs
  {
    if xs != [] {
      SortedUniqueSpec(xs[..|xs| - 1]);
      InsertUniqueSorted(xs[|xs| - 1], SortedUnique(xs[..|xs| - 1]));
    }
    var r := SortedUnique(xs);
    forall i, j | 0 <= i < j < |r| ensures r[i] != r[j] {
      if r[i] == r[j] {
        StrLessIrreflexive(r[i]);
      }
    }
  }

  /** The outcome of `validate_decision` given the schema validator's messages: the schema
      errors first, then the unknown department ids, sorted and without duplicates. */
  function DecisionCheck(schemaErrors: seq<string>, refs: DecisionRefs, catalog: DepartmentsCatalog): Result<()> {
    if schemaErrors != [] then Failure(SchemaFailed + Join("\n", schemaErrors))
    else
      var missing := MissingIds(refs, catalog);
      if missing != [] then Failure(UnknownDepartment + Join(", ", SortedUnique(missing)))
      else Success(())
  }

  /** `validate_decision` fails on any schema error; past the schema check it fails
      exactly when some referenced department is unknown, naming the unknown ids in
      sorted order without repetition. */
  lemma DecisionCheckSpec(schemaErrors: seq<string>, refs: DecisionRefs, catalog: DepartmentsCatalog)
    ensures schemaErrors != [] ==> DecisionCheck(schemaErrors, refs, catalog) == Failure(SchemaFailed + Join("\n", schemaErrors))
    ensures schemaErrors == [] ==>
      (DecisionCheck(schemaErrors, refs, catalog).Success? <==> MissingIds(refs, catalog) == [])
    ensures schemaErrors == [] && MissingIds(refs, catalog) != [] ==>
      var listed := SortedUnique(MissingIds(refs, catalog));
      && DecisionCheck(schemaErrors, refs, catalog) == Failure(UnknownDepartment + Join(", ", listed))
      && StrictlySorted(listed)
      && (forall y :: y in listed <==> y in MissingIds(refs, catalog))
  {
    SortedUniqueSpec(MissingIds(refs, catalog));
  }

  /** `validate_decision` */
  method ValidateDecision(schemaErrors: seq<string>, refs: DecisionRefs, catalog: DepartmentsCatalog)
    returns (r: Result<()>)
    ensures r == DecisionCheck(schemaErrors, refs, catalog)
  {
    if schemaErrors != [] {
      var details := Join("\n", schemaErrors);
      return Failure(SchemaFailed + details);
    }
    var missingDepartments := ValidateDepartments(refs, catalog);
    if missingDepartments != [] {
      var missingList := Join(", ", SortedUnique(missingDepartments));
      return Failure(UnknownDepartment + missingList);
    }
    return Success(());
  }

  /** The references of a built decision. */
  function RefsOf(d: DecisionBuilder.Decision): DecisionRefs {
    DecisionRefs(seq(|d.suggestions|, i requires 0 <= i < |d.suggestions| => Some(d.suggestions[i].departmentId)),
                 d.finalDepartmentIds)
  }

  /** Every candidate names a department of the catalog. */
  predicate KnownCandidates(candidates: seq<CandidateDepartment>, valid: set<string>) {
    forall i :: 0 <= i < |candidates| ==> candidates[i].departmentId in valid
  }

  /** Every candidate scored from a catalog carries the id of one of its departments. */
  lemma CandidatesKnown(text: string, catalog: DepartmentsCatalog)
    ensures KnownCandidates(StableSort.SortDesc(CandidateRetrieval.Scored(text, catalog.departments), ScoreOf), ValidIds(catalog))
  {
    var deps := catalog.departments;
    var candidates := StableSort.SortDesc(CandidateRetrieval.Scored(text, deps), ScoreOf);
    CandidateRetrieval.RetrievedMembers(text, deps);
    forall i | 0 <= i < |candidates| ensures candidates[i].departmentId in ValidIds(catalog) {
      var k :| 0 <= k < |deps| && candidates[i] == CandidateRetrieval.CandidateFor(text, deps[k]);
      assert deps[k] in deps;
    }
  }

  /** Every id of `ids` is in `valid`. */
  predicate AllIn(ids: seq<string>, valid: set<string>) {
    forall i :: 0 <= i < |ids| ==> ids[i] in valid
  }

  /** Every suggestion names an id and every referenced id is in `valid`. */
  predicate RefsKnown(refs: DecisionRefs, valid: set<string>) {
    && (forall i :: 0 <= i < |refs.suggestionIds| ==> refs.suggestionIds[i].Some? && refs.suggestionIds[i].value in valid)
    && AllIn(refs.finalIds, valid)
  }

  /** Known references pass the department check. */
  lemma KnownRefsPass(refs: DecisionRefs, catalog: DepartmentsCatalog)
    requires RefsKnown(refs, ValidIds(catalog))
    ensures MissingIds(refs, catalog) == []
  {
    MissingIdsSpec(refs, catalog);
  }

  /** The routing decision only names candidates. */
  lemma RoutedIdsKnown(candidates: seq<CandidateDepartment>, rulesContext: RulesContext, mode: string, valid: set<string>)
    requires KnownCandidates(candidates, valid)
    ensures AllIn(LlmDecider.DecideRouting(candidates, rulesContext, mode).departmentIds, valid)
  {
  }

  /** A decision assembled from known candidates, with a routing decision that only names
      known departments, references only known departments. */
  lemma DecisionOverKnownCandidates(letter: NormalizedLetter, catalog: DepartmentsCatalog,
                                    candidates: seq<CandidateDepartment>, rulesContext: RulesContext,
                                    routing: RoutingDecision, processingTimeMs: int)
    requires KnownCandidates(candidates, ValidIds(catalog))
    requires AllIn(routing.departmentIds, ValidIds(catalog))
    ensures DecisionBuilder.DecisionOf(letter, catalog, candidates, rulesContext, routing, processingTimeMs).Success? ==>
      RefsKnown(RefsOf(DecisionBuilder.DecisionOf(letter, catalog, candidates, rulesContext, routing, processingTimeMs).value), ValidIds(catalog))
  {
    var r := DecisionBuilder.DecisionOf(letter, catalog, candidates, rulesContext, routing, processingTimeMs);
    if r.Success? {
      var d := r.value;
      var maxScore := DecisionBuilder.MaxScore(candidates);
      assert d.suggestions == DecisionBuilder.Suggestions(candidates, rulesContext, maxScore);
      DecisionBuilder.SuggestionsAt(candidates, rulesContext, maxScore);
      assert d.finalDepartmentIds == DecisionBuilder.FinalIds(routing, candidates).value;
    }
  }

  /** A decision assembled from the catalog's own candidates and the routing decision over
      them names only catalog departments, so the department check passes. */
  lemma BuiltDecisionIdsKnown(letter: NormalizedLetter, text: string, catalog: DepartmentsCatalog,
                              candidates: seq<CandidateDepartment>, rulesContext: RulesContext,
                              routing: RoutingDecision, processingTimeMs: int)
    requires candidates == StableSort.SortDesc(CandidateRetrieval.Scored(text, catalog.departments), ScoreOf)
    requires routing == LlmDecider.DecideRouting(candidates, rulesContext, routing.mode)
    ensures DecisionBuilder.DecisionOf(letter, catalog, candidates, rulesContext, routing, processingTimeMs).Success? ==>
      MissingIds(RefsOf(DecisionBuilder.DecisionOf(letter, catalog, candidates, rulesContext, routing, processingTimeMs).value), catalog) == []
  {
    CandidatesKnown(text, catalog);
    RoutedIdsKnown(candidates, rulesContext, routing.mode, ValidIds(catalog));
    DecisionOverKnownCandidates(letter, catalog, candidates, rulesContext, routing, processingTimeMs);
    var r := DecisionBuilder.DecisionOf(letter, catalog, candidates, rulesContext, routing, processingTimeMs);
    if r.Success? {
      KnownRefsPass(RefsOf(r.value), catalog);
    }
  }
}
