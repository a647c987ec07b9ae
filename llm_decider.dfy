/** The routing decision taken from the scored candidates (router/llm_decider.py). No
    language model is called: the "llm_assisted" mode is a stub that falls back to the
    heuristic choice. */
module LlmDecider {
  import opened Opt
  import opened Models

  const HeuristicOnly := "heuristic_only"
  const LlmAssisted := "llm_assisted"
  const NoCandidatesComment := "No candidates available"
  const LlmStubComment := "LLM-assisted mode stubbed; used heuristic fallback."
  const HeuristicComment := "Heuristic selection based on keyword scores."
  const LlmNotConfigured := "llm_not_configured"

  function Min(a: real, b: real): real { if a <= b then a else b }
  function Max(a: real, b: real): real { if a >= b then a else b }

  /** `_normalize_confidence`: the score as a fraction of the maximum, clipped to [0, 1];
      0 when the maximum is not positive. */
  function NormalizeConfidence(score: real, maxScore: real): (r: real)
    ensures 0.0 <= r <= 1.0
    ensures maxScore <= 0.0 ==> r == 0.0
    ensures maxScore > 0.0 && 0.0 <= score <= maxScore ==> r * maxScore == score
    ensures maxScore > 0.0 && score >= maxScore ==> r == 1.0
  {
    if maxScore <= 0.0 then 0.0 else Max(0.0, Min(1.0, score / maxScore))
  }

  /** The index `max(candidates, key=score)` picks: the first candidate with the largest
      score. */
  function TopIndex(candidates: seq<CandidateDepartment>): (r: nat)
    requires candidates != []
    ensures r < |candidates|
    ensures forall j :: 0 <= j < |candidates| ==> candidates[j].score <= candidates[r].score
    ensures forall j :: 0 <= j < r ==> candidates[j].score < candidates[r].score
  {
    if |candidates| == 1 then 0
    else
      var i := TopIndex(candidates[..|candidates| - 1]);
      assert forall j :: 0 <= j < |candidates| - 1 ==> candidates[..|candidates| - 1][j] == candidates[j];
      if candidates[|candidates| - 1].score > candidates[i].score then |candidates| - 1 else i
  }

  /** `decide_routing`. Without candidates: no department, confidence 0. Otherwise the
      single department of the first top-scoring candidate, with confidence 1 when its
      score is positive and 0 otherwise (the top score is divided by itself). The mode is
      echoed, no model is used, and only "llm_assisted" records a fallback reason. The
      rules context is accepted and not consulted. */
  function DecideRouting(candidates: seq<CandidateDepartment>, rulesContext: RulesContext, mode: string): (d: RoutingDecision)
    ensures d.mode == mode && !d.usedLlm
    ensures candidates == [] ==>
      d.departmentIds == [] && d.confidence == 0.0 && d.comment == NoCandidatesComment && d.fallbackReason.None?
    ensures candidates != [] ==>
      && |d.departmentIds| == 1
      && (exists i :: 0 <= i < |candidates| && candidates[i].departmentId == d.departmentIds[0]
            && (forall j :: 0 <= j < |candidates| ==> candidates[j].score <= candidates[i].score)
            && (forall j :: 0 <= j < i ==> candidates[j].score < candidates[i].score))
      && ((exists j :: 0 <= j < |candidates| && candidates[j].score > 0) ==> d.confidence == 1.0)
      && ((forall j :: 0 <= j < |candidates| ==> candidates[j].score <= 0) ==> d.confidence == 0.0)
    ensures candidates != [] && mode == LlmAssisted ==>
      d.fallbackReason == Some(LlmNotConfigured) && d.comment == LlmStubComment
    ensures candidates != [] && mode != LlmAssisted ==>
      d.fallbackReason.None? && d.comment == HeuristicComment
  {
    if candidates == [] then
      RoutingDecision([], 0.0, mode, NoCandidatesComment, false, None)
    else
      var top := candidates[TopIndex(candidates)];
      var maxScore := top.score;
      var confidence := NormalizeConfidence(top.score as real, maxScore as real);
      if mode == LlmAssisted then
        RoutingDecision([top.departmentId], confidence, mode, LlmStubComment, false, Some(LlmNotConfigured))
      else
        RoutingDecision([top.departmentId], confidence, mode, HeuristicComment, false, None)
  }
}
