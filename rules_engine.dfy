/** Triage rules of the catalog applied to the letter text (router/rules_engine.py). */
module RulesEngine {
  import opened Opt
  import opened Text
  import opened Seqs
  import opened Models

  const CoExecutor := "соисполнитель"
  const CoExecutorGenitive := CoExecutor + "я"
  const HighMarker := "высок"
  const PriorityMarker := "приоритет"
  const DefaultRuleText := "rule matched"
  const HighPriorityBoost := 2

  /** `_matches_rule`: some trigger occurs in the text, ignoring case. */
  function MatchesRule(text: string, triggers: seq<string>): (r: bool)
    ensures r <==> exists i :: 0 <= i < |triggers| && Occurs(text, triggers[i])
    ensures triggers == [] ==> !r
  {
    if triggers == [] then false
    else
      var last := triggers[|triggers| - 1];
      var r := MatchesRule(text, triggers[..|triggers| - 1]) || Occurs(text, last);
      assert forall i :: 0 <= i < |triggers| - 1 ==> triggers[..|triggers| - 1][i] == triggers[i];
      r
  }

  /** `_extract_review_reason`: the rule text itself when it mentions a co-executor. */
  function ExtractReviewReason(ruleText: string): Option<string> {
    var lowered := Lower(ruleText);
    if Contains(lowered, CoExecutorGenitive) || Contains(lowered, CoExecutor) then Some(ruleText) else None
  }

  /** A rule text is a review reason exactly when it mentions "соисполнитель" in any case
      (the genitive form contains it), and the reason is the rule text unchanged. */
  lemma ReviewReasonIff(ruleText: string)
    ensures ExtractReviewReason(ruleText).Some? <==> Contains(Lower(ruleText), CoExecutor)
    ensures ExtractReviewReason(ruleText).Some? ==> ExtractReviewReason(ruleText).value == ruleText && ruleText != []
  {
    var lowered := Lower(ruleText);
    if Contains(lowered, CoExecutorGenitive) {
      ContainsPrefix(lowered, CoExecutor, "я");
    }
    assert !Contains([], CoExecutor);
  }

  /** `_priority_boost`: 2 when the lowered text holds both "высок" and "приоритет",
      0 otherwise. */
  function PriorityBoost(ruleText: string): (r: int)
    ensures r == 0 || r == HighPriorityBoost
  {
    var lowered := Lower(ruleText);
    if Contains(lowered, HighMarker) && Contains(lowered, PriorityMarker) then HighPriorityBoost else 0
  }

  /** The boost is 2 exactly when the text speaks of high priority in any case. */
  lemma PriorityBoostIff(ruleText: string)
    ensures PriorityBoost(ruleText) == HighPriorityBoost <==> Occurs(ruleText, HighMarker) && Occurs(ruleText, PriorityMarker)
  {
    MarkersLowered();
    LoweredFixed(HighMarker);
    LoweredFixed(PriorityMarker);
  }

  /** The markers are written in lower case. */
  lemma MarkersLowered()
    ensures IsLowered(HighMarker) && IsLowered(PriorityMarker)
  {
    assert IsLowered(HighMarker) by {
      forall i | 0 <= i < |HighMarker| ensures LowerChar(HighMarker[i]) == HighMarker[i] {
        assert IsLowerChar(HighMarker[i]);
      }
    }
    assert IsLowered(PriorityMarker) by {
      forall i | 0 <= i < |PriorityMarker| ensures LowerChar(PriorityMarker[i]) == PriorityMarker[i] {
        assert IsLowerChar(PriorityMarker[i]);
      }
    }
  }

  /** `str(rule.get("then", "rule matched"))` */
  function RuleText(rule: TriageRule): string {
    rule.thenText.GetOr(DefaultRuleText)
  }

  /** A rule fires when its `if_any` list is present, non-empty and matches; a rule with no
      triggers is skipped. */
  predicate Fires(text: string, rule: TriageRule) {
    rule.ifAny.Some? && rule.ifAny.value != [] && MatchesRule(text, rule.ifAny.value)
  }

  lemma FiresIff(text: string, rule: TriageRule)
    ensures Fires(text, rule) <==>
      rule.ifAny.Some? && exists i :: 0 <= i < |rule.ifAny.value| && Occurs(text, rule.ifAny.value[i])
    ensures rule.ifAny.None? || rule.ifAny.value == [] ==> !Fires(text, rule)
  {
  }

  /** The `then` texts of the rules that fire, in rule order (`triggered_rules`). */
  function FiredTexts(text: string, rules: seq<TriageRule>): (r: seq<string>)
    ensures |r| <= |rules|
  {
    if rules == [] then []
    else
      var last := rules[|rules| - 1];
      FiredTexts(text, rules[..|rules| - 1]) + (if Fires(text, last) then [RuleText(last)] else [])
  }

  /** The `then` text of every rule that fires is among the fired texts. */
  lemma {:induction false} FiredTextsComplete(text: string, rules: seq<TriageRule>)
    ensures forall i :: 0 <= i < |rules| && Fires(text, rules[i]) ==> RuleText(rules[i]) in FiredTexts(text, rules)
  {
    if rules != [] {
      var init := rules[..|rules| - 1];
      FiredTextsComplete(text, init);
      var r := FiredTexts(text, rules);
      assert FiredTexts(text, init) <= r;
      forall i | 0 <= i < |rules| && Fires(text, rules[i]) ensures RuleText(rules[i]) in r {
        if i < |init| {
          assert rules[i] == init[i];
        }
      }
    }
  }

  /** `t` is the `then` text of some rule of `rules` that fires. */
  predicate FiredBy(text: string, rules: seq<TriageRule>, t: string) {
    exists k :: 0 <= k < |rules| && Fires(text, rules[k]) && t == RuleText(rules[k])
  }

  /** Every fired text is the `then` text of a rule that fires. */
  lemma {:induction false} FiredTextsSound(text: string, rules: seq<TriageRule>)
    ensures forall i :: 0 <= i < |FiredTexts(text, rules)| ==> FiredBy(text, rules, FiredTexts(text, rules)[i])
  {
    if rules != [] {
      var init := rules[..|rules| - 1];
      var last := rules[|rules| - 1];
      FiredTextsSound(text, init);
      var prev := FiredTexts(text, init);
      var r := FiredTexts(text, rules);
      assert r == prev + (if Fires(text, last) then [RuleText(last)] else []);
      forall i | 0 <= i < |r| ensures FiredBy(text, rules, r[i]) {
        if i < |prev| {
          assert r[i] == prev[i];
          assert FiredBy(text, init, prev[i]);
          var k :| 0 <= k < |init| && Fires(text, init[k]) && prev[i] == RuleText(init[k]);
          assert rules[k] == init[k];
        } else {
          assert Fires(text, rules[|rules| - 1]) && r[i] == RuleText(rules[|rules| - 1]);
        }
      }
    }
  }

  /** There are no fired texts exactly when no rule fires. */
  lemma FiredTextsEmpty(text: string, rules: seq<TriageRule>)
    ensures FiredTexts(text, rules) == [] <==> forall i :: 0 <= i < |rules| ==> !Fires(text, rules[i])
  {
    FiredTextsComplete(text, rules);
    if FiredTexts(text, rules) != [] {
      FiredTextsSound(text, rules);
      assert 0 < |FiredTexts(text, rules)|;
    }
  }

  predicate IsHighPriority(ruleText: string) {
    PriorityBoost(ruleText) == HighPriorityBoost
  }

  predicate IsReviewReason(ruleText: string) {
    ExtractReviewReason(ruleText).Some?
  }

  /** The number of fired rules whose text signals high priority. */
  function HighCount(text: string, rules: seq<TriageRule>): nat {
    |Filter(FiredTexts(text, rules), IsHighPriority)|
  }

  /** `priority_boosts[id] = priority_boosts.get(id, 0) + boost` */
  function Bump(boosts: map<string, int>, id: string, boost: int): map<string, int> {
    boosts[id := (if id in boosts then boosts[id] else 0) + boost]
  }

  /** `priority_boosts[id] = priority_boosts.get(id, 0) + boost`, done `count` times with a
      boost of 2. */
  function AddBoosts(boosts: map<string, int>, id: string, count: nat): map<string, int> {
    if count == 0 then boosts
    else boosts[id := (if id in boosts then boosts[id] else 0) + 2 * count]
  }

  /** The review reasons met while scanning the departments in order, repeats included. */
  function AllReasons(text: string, deps: seq<Department>): seq<string> {
    if deps == [] then []
    else
      var d := deps[|deps| - 1];
      AllReasons(text, deps[..|deps| - 1]) + Filter(FiredTexts(text, d.triageRules), IsReviewReason)
  }

  /** `rules_triggered` after scanning `deps`. */
  function Triggered(text: string, deps: seq<Department>): map<string, seq<string>> {
    if deps == [] then map[]
    else
      var d := deps[|deps| - 1];
      var prev := Triggered(text, deps[..|deps| - 1]);
      var fired := FiredTexts(text, d.triageRules);
      if fired != [] then prev[d.departmentId := fired] else prev
  }

  /** `priority_boosts` after scanning `deps`. */
  function Boosts(text: string, deps: seq<Department>): map<string, int> {
    if deps == [] then map[]
    else
      var d := deps[|deps| - 1];
      AddBoosts(Boosts(text, deps[..|deps| - 1]), d.departmentId, HighCount(text, d.triageRules))
  }

  /** The context `apply_triage_rules` returns for `deps`. */
  function Triage(text: string, deps: seq<Department>): RulesContext {
    RulesContext(Triggered(text, deps), Boosts(text, deps), AppendNew([], AllReasons(text, deps)))
  }

  /** Dropping the last department keeps the ids unique, and none of the others shares
      its id. */
  lemma UniqueInit(deps: seq<Department>)
    requires deps != [] && UniqueIds(deps)
    ensures UniqueIds(deps[..|deps| - 1])
    ensures forall k :: 0 <= k < |deps| - 1 ==>
      deps[..|deps| - 1][k] == deps[k] && deps[k].departmentId != deps[|deps| - 1].departmentId
  {
  }

  /** With unique department ids, a department is a key of `rules_triggered` exactly when
      one of its rules fired, and its entry is the list of fired `then` texts; no other
      key appears. */
  lemma {:induction false} TriggeredSpec(text: string, deps: seq<Department>)
    requires UniqueIds(deps)
    ensures forall k :: 0 <= k < |deps| ==>
      (deps[k].departmentId in Triggered(text, deps) <==> FiredTexts(text, deps[k].triageRules) != [])
    ensures forall k :: 0 <= k < |deps| && deps[k].departmentId in Triggered(text, deps) ==>
      Triggered(text, deps)[deps[k].departmentId] == FiredTexts(text, deps[k].triageRules)
    ensures forall id :: id in Triggered(text, deps) ==> exists k :: 0 <= k < |deps| && deps[k].departmentId == id
  {
    if deps != [] {
      var init := deps[..|deps| - 1];
      var d := deps[|deps| - 1];
      UniqueInit(deps);
      TriggeredSpec(text, init);
      var prev := Triggered(text, init);
      var fired := FiredTexts(text, d.triageRules);
      var t := Triggered(text, deps);
      assert t == if fired != [] then prev[d.departmentId := fired] else prev;
      forall k | 0 <= k < |deps|
        ensures deps[k].departmentId in t <==> FiredTexts(text, deps[k].triageRules) != []
        ensures deps[k].departmentId in t ==> t[deps[k].departmentId] == FiredTexts(text, deps[k].triageRules)
      {
        if k < |init| {
          assert init[k] == deps[k];
        }
      }
      forall id | id in t ensures exists k :: 0 <= k < |deps| && deps[k].departmentId == id {
        if id == d.departmentId {
          assert deps[|deps| - 1].departmentId == id;
        } else {
          var k :| 0 <= k < |init| && init[k].departmentId == id;
          assert deps[k].departmentId == id;
        }
      }
    }
  }

  /** `priority_boosts` after scanning `deps`, for any per-department count of boosts. */
  function BoostsBy(count: Department -> nat, deps: seq<Department>): map<string, int> {
    if deps == [] then map[]
    else
      var d := deps[|deps| - 1];
      AddBoosts(BoostsBy(count, deps[..|deps| - 1]), d.departmentId, count(d))
  }

  /** The number of fired high-priority rules of a department. */
  function HighOf(text: string): Department -> nat {
    (d: Department) => HighCount(text, d.triageRules)
  }

  lemma {:induction false} BoostsByHigh(text: string, deps: seq<Department>)
    ensures Boosts(text, deps) == BoostsBy(HighOf(text), deps)
  {
    if deps != [] {
      BoostsByHigh(text, deps[..|deps| - 1]);
    }
  }

  /** Only department ids are keys. */
  lemma {:induction false} BoostsByKeys(count: Department -> nat, deps: seq<Department>)
    ensures forall id :: id in BoostsBy(count, deps) ==> exists k :: 0 <= k < |deps| && deps[k].departmentId == id
  {
    if deps != [] {
      var init := deps[..|deps| - 1];
      BoostsByKeys(count, init);
      assert forall k :: 0 <= k < |init| ==> init[k] == deps[k];
    }
  }

  /** Boosting a fresh id: the key appears with 2 x `count` when `count` is positive, and
      no other key changes. */
  lemma AddBoostsFresh(m: map<string, int>, id: string, count: nat)
    requires id !in m
    ensures id in AddBoosts(m, id, count) <==> count > 0
    ensures id in AddBoosts(m, id, count) ==> AddBoosts(m, id, count)[id] == 2 * count
    ensures forall x :: x != id ==> (x in AddBoosts(m, id, count) <==> x in m)
    ensures forall x :: x != id && x in m ==> AddBoosts(m, id, count)[x] == m[x]
  {
  }

  /** With unique ids, the last department has no boost yet when its turn comes. */
  lemma LastIdFresh(count: Department -> nat, deps: seq<Department>)
    requires deps != [] && UniqueIds(deps)
    ensures deps[|deps| - 1].departmentId !in BoostsBy(count, deps[..|deps| - 1])
  {
    UniqueInit(deps);
    BoostsByKeys(count, deps[..|deps| - 1]);
  }

  /** With unique ids, each department's key holds 2 x its count, and is absent when the
      count is 0. */
  lemma {:induction false} BoostsBySpec(count: Department -> nat, deps: seq<Department>)
    requires UniqueIds(deps)
    ensures forall k :: 0 <= k < |deps| ==> (deps[k].departmentId in BoostsBy(count, deps) <==> count(deps[k]) > 0)
    ensures forall k :: 0 <= k < |deps| && deps[k].departmentId in BoostsBy(count, deps) ==>
      BoostsBy(count, deps)[deps[k].departmentId] == 2 * count(deps[k])
  {
    if deps != [] {
      var init := deps[..|deps| - 1];
      var d := deps[|deps| - 1];
      UniqueInit(deps);
      BoostsBySpec(count, init);
      LastIdFresh(count, deps);
      AddBoostsFresh(BoostsBy(count, init), d.departmentId, count(d));
      forall k | 0 <= k < |init| ensures init[k] == deps[k] {}
    }
  }

  /** Only department ids are keys of `priority_boosts`. */
  lemma BoostsKeys(text: string, deps: seq<Department>)
    ensures forall id :: id in Boosts(text, deps) ==> exists k :: 0 <= k < |deps| && deps[k].departmentId == id
  {
    BoostsByHigh(text, deps);
    BoostsByKeys(HighOf(text), deps);
  }

  /** With unique department ids, `priority_boosts[id]` is 2 x the number of its fired
      high-priority rules, and the key is absent when there are none. */
  lemma BoostsSpec(text: string, deps: seq<Department>)
    requires UniqueIds(deps)
    ensures forall k :: 0 <= k < |deps| ==>
      (deps[k].departmentId in Boosts(text, deps) <==> HighCount(text, deps[k].triageRules) > 0)
    ensures forall k :: 0 <= k < |deps| && deps[k].departmentId in Boosts(text, deps) ==>
      Boosts(text, deps)[deps[k].departmentId] == 2 * HighCount(text, deps[k].triageRules)
  {
    BoostsByHigh(text, deps);
    BoostsBySpec(HighOf(text), deps);
    forall k | 0 <= k < |deps| ensures HighOf(text)(deps[k]) == HighCount(text, deps[k].triageRules) {}
  }

  /** Every reason met while scanning is a fired rule text that mentions a co-executor. */
  lemma {:induction false} AllReasonsAreReasons(text: string, deps: seq<Department>)
    ensures forall i :: 0 <= i < |AllReasons(text, deps)| ==> IsReviewReason(AllReasons(text, deps)[i])
  {
    if deps != [] {
      var init := deps[..|deps| - 1];
      AllReasonsAreReasons(text, init);
      FilterMembers(FiredTexts(text, deps[|deps| - 1].triageRules), IsReviewReason);
    }
  }

  /** `review_reasons` has no duplicates, lists reasons in the order they were first met
      across departments and rules, holds every reason met and only rule texts that
      mention "соисполнитель" in any case. */
  lemma ReviewReasonsSpec(text: string, deps: seq<Department>)
    ensures var r := Triage(text, deps).reviewReasons;
      var all := AllReasons(text, deps);
      && NoDup(r)
      && FirstSeenOrder(r, all)
      && (forall i :: 0 <= i < |all| ==> all[i] in r)
      && (forall i :: 0 <= i < |r| ==> r[i] in all && Contains(Lower(r[i]), CoExecutor))
  {
    var all := AllReasons(text, deps);
    var r := AppendNew([], all);
    AppendNewMembers([], all);
    AppendNewFirstSeen(all);
    AllReasonsAreReasons(text, deps);
    forall i | 0 <= i < |r| ensures Contains(Lower(r[i]), CoExecutor) {
      ReviewReasonIff(r[i]);
    }
  }

  /** `apply_triage_rules`: every rule of every department is tried in catalog order; the
      result is the triage context of the whole catalog. */
  method ApplyTriageRules(text: string, catalog: DepartmentsCatalog) returns (ctx: RulesContext)
    ensures ctx == Triage(text, catalog.departments)
  {
    var deps := catalog.departments;
    var rulesTriggered: map<string, seq<string>> := map[];
    var priorityBoosts: map<string, int> := map[];
    var reviewReasons: seq<string> := [];
    for i := 0 to |deps|
      invariant rulesTriggered == Triggered(text, deps[..i])
      invariant priorityBoosts == Boosts(text, deps[..i])
      invariant reviewReasons == AppendNew([], AllReasons(text, deps[..i]))
    {
      assert deps[..i + 1][..i] == deps[..i];
      var department := deps[i];
      var triggeredRules;
      AppendNewConcat([], AllReasons(text, deps[..i]), Filter(FiredTexts(text, department.triageRules), IsReviewReason));
      triggeredRules, priorityBoosts, reviewReasons := ApplyDepartmentRules(text, department, priorityBoosts, reviewReasons);
      if triggeredRules != [] {
        rulesTriggered := rulesTriggered[department.departmentId := triggeredRules];
      }
    }
    assert deps[..|deps|] == deps;
    ctx := RulesContext(rulesTriggered, priorityBoosts, reviewReasons);
  }

  /** The inner loop of `apply_triage_rules`: the rules of one department in order. The
      texts of the rules that fire are collected, each high-priority text adds 2 to the
      department's boost and each new review reason is appended. */
  method ApplyDepartmentRules(text: string, department: Department, boosts: map<string, int>, reasons: seq<string>)
    returns (triggeredRules: seq<string>, priorityBoosts: map<string, int>, reviewReasons: seq<string>)
    ensures triggeredRules == FiredTexts(text, department.triageRules)
    ensures priorityBoosts == AddBoosts(boosts, department.departmentId, HighCount(text, department.triageRules))
    ensures reviewReasons == AppendNew(reasons, Filter(FiredTexts(text, department.triageRules), IsReviewReason))
  {
    var rules := department.triageRules;
    var id := department.departmentId;
    ghost var start := RuleScan([], boosts, reasons);
    triggeredRules := [];
    priorityBoosts := boosts;
    reviewReasons := reasons;
    for j := 0 to |rules|
      invariant RuleScan(triggeredRules, priorityBoosts, reviewReasons) == ScanRules(text, id, rules[..j], start)
    {
      assert rules[..j + 1][..j] == rules[..j];
      var rule := rules[j];
      if rule.ifAny.None? || rule.ifAny.value == [] {
        continue;
      }
      if MatchesRule(text, rule.ifAny.value) {
        var ruleText := RuleText(rule);
        triggeredRules := triggeredRules + [ruleText];
        var boost := PriorityBoost(ruleText);
        if boost != 0 {
          priorityBoosts := Bump(priorityBoosts, id, boost);
        }
        var reviewReason := ExtractReviewReason(ruleText);
        if reviewReason.Some? && reviewReason.value != "" && reviewReason.value !in reviewReasons {
          reviewReasons := reviewReasons + [reviewReason.value];
        }
      }
    }
    assert rules[..|rules|] == rules;
    ScanTriggered(text, id, rules, start);
    ScanBoosts(text, id, rules, start);
    ScanReasons(text, id, rules, start);
  }

  /** The three accumulators of the inner loop of `apply_triage_rules`. */
  datatype RuleScan = RuleScan(triggered: seq<string>, boosts: map<string, int>, reasons: seq<string>)

  /** One pass of the inner loop body, for `rule` of the department `id`. */
  function RuleStep(text: string, id: string, rule: TriageRule, st: RuleScan): RuleScan {
    RuleScan(StepTriggered(text, rule, st.triggered), StepBoosts(text, id, rule, st.boosts),
             StepReasons(text, rule, st.reasons))
  }

  /** `triggered_rules.append(rule_text)` for a rule that fires. */
  function StepTriggered(text: string, rule: TriageRule, triggered: seq<string>): seq<string> {
    if Fires(text, rule) then triggered + [RuleText(rule)] else triggered
  }

  /** The boost of a rule that fires, added when it is not zero. */
  function StepBoosts(text: string, id: string, rule: TriageRule, boosts: map<string, int>): map<string, int> {
    if !Fires(text, rule) then boosts
    else
      var boost := PriorityBoost(RuleText(rule));
      if boost != 0 then Bump(boosts, id, boost) else boosts
  }

  /** The review reason of a rule that fires, appended when it is new. */
  function StepReasons(text: string, rule: TriageRule, reasons: seq<string>): seq<string> {
    if !Fires(text, rule) then reasons
    else
      var reason := ExtractReviewReason(RuleText(rule));
      if reason.Some? && reason.value != "" && reason.value !in reasons then reasons + [reason.value] else reasons
  }

  /** The inner loop run over `rules` from the state `st`. */
  function ScanRules(text: string, id: string, rules: seq<TriageRule>, st: RuleScan): RuleScan {
    if rules == [] then st
    else RuleStep(text, id, rules[|rules| - 1], ScanRules(text, id, rules[..|rules| - 1], st))
  }

  /** The triggered list gains the `then` text of every rule that fires, in order. */
  lemma {:induction false} ScanTriggered(text: string, id: string, rules: seq<TriageRule>, st: RuleScan)
    ensures ScanRules(text, id, rules, st).triggered == st.triggered + FiredTexts(text, rules)
  {
    if rules != [] {
      ScanTriggered(text, id, rules[..|rules| - 1], st);
    }
  }

  /** The boosts alone, after the inner loop has run over `rules` from `boosts`. */
  function BoostsScan(text: string, id: string, rules: seq<TriageRule>, boosts: map<string, int>): map<string, int> {
    if rules == [] then boosts
    else StepBoosts(text, id, rules[|rules| - 1], BoostsScan(text, id, rules[..|rules| - 1], boosts))
  }

  /** The boosts of the scan depend only on the boosts it starts from. */
  lemma {:induction false} ScanRulesBoosts(text: string, id: string, rules: seq<TriageRule>, st: RuleScan)
    ensures ScanRules(text, id, rules, st).boosts == BoostsScan(text, id, rules, st.boosts)
  {
    if rules != [] {
      ScanRulesBoosts(text, id, rules[..|rules| - 1], st);
    }
  }

  /** The department's boost grows by 2 per fired high-priority rule, and its key is only
      written when there is one. */
  lemma {:induction false} BoostsScanSpec(text: string, id: string, rules: seq<TriageRule>, boosts: map<string, int>)
    ensures BoostsScan(text, id, rules, boosts) == AddBoosts(boosts, id, HighCount(text, rules))
  {
    if rules != [] {
      var init := rules[..|rules| - 1];
      BoostsScanSpec(text, id, init, boosts);
      var last := rules[|rules| - 1];
      BoostStep(text, boosts, id, HighCount(text, init), BoostsScan(text, id, init, boosts), last);
      assert rules == init + [last];
      HighCountStep(text, init, last);
    }
  }

  /** The same for the whole scan state. */
  lemma ScanBoosts(text: string, id: string, rules: seq<TriageRule>, st: RuleScan)
    ensures ScanRules(text, id, rules, st).boosts == AddBoosts(st.boosts, id, HighCount(text, rules))
  {
    ScanRulesBoosts(text, id, rules, st);
    BoostsScanSpec(text, id, rules, st.boosts);
  }

  /** 1 for a rule that fires with a high-priority text, else 0. */
  function HighStep(text: string, rule: TriageRule): nat {
    if Fires(text, rule) && PriorityBoost(RuleText(rule)) != 0 then 1 else 0
  }

  /** The high-priority count grows by one exactly with a fired high-priority last rule. */
  lemma HighCountStep(text: string, init: seq<TriageRule>, last: TriageRule)
    ensures HighCount(text, init + [last]) == HighCount(text, init) + HighStep(text, last)
  {
    var rules := init + [last];
    assert rules[..|rules| - 1] == init;
    var fired := FiredTexts(text, init);
    var t := RuleText(last);
    if Fires(text, last) {
      assert FiredTexts(text, rules) == fired + [t];
      FilterAppend(fired, [t], IsHighPriority);
      assert [t][..0] == [];
    } else {
      assert FiredTexts(text, rules) == fired;
    }
  }

  /** A fired high-priority rule is one more boost of 2 for `id`; any other rule changes
      nothing. */
  lemma BoostStep(text: string, boosts: map<string, int>, id: string, count: nat, m: map<string, int>, rule: TriageRule)
    requires m == AddBoosts(boosts, id, count)
    ensures StepBoosts(text, id, rule, m)
         == AddBoosts(boosts, id, count + HighStep(text, rule))
  {
    StepBoostsValue(text, id, rule, m);
    BumpOrKeep(boosts, id, count, m, HighStep(text, rule), StepBoosts(text, id, rule, m));
  }

  /** A rule bumps the boost by 2 exactly when it is a fired high-priority rule. */
  lemma StepBoostsValue(text: string, id: string, rule: TriageRule, m: map<string, int>)
    ensures StepBoosts(text, id, rule, m) == if HighStep(text, rule) == 1 then Bump(m, id, HighPriorityBoost) else m
  {
  }

  /** One more boost of 2, or none, on top of `count` of them. */
  lemma BumpOrKeep(boosts: map<string, int>, id: string, count: nat, m: map<string, int>, h: nat, next: map<string, int>)
    requires m == AddBoosts(boosts, id, count)
    requires h <= 1
    requires next == if h == 1 then Bump(m, id, HighPriorityBoost) else m
    ensures next == AddBoosts(boosts, id, count + h)
  {
    if h == 1 {
      assert AddBoosts(boosts, id, count + 1) == Bump(m, id, HighPriorityBoost);
    }
  }

  /** The review reasons gain every fired review-reason text not already listed. */
  lemma {:induction false} ScanReasons(text: string, id: string, rules: seq<TriageRule>, st: RuleScan)
    ensures ScanRules(text, id, rules, st).reasons == AppendNew(st.reasons, Filter(FiredTexts(text, rules), IsReviewReason))
  {
    if rules != [] {
      var init := rules[..|rules| - 1];
      var last := rules[|rules| - 1];
      ScanReasons(text, id, init, st);
      var prev := ScanRules(text, id, init, st);
      var fired := FiredTexts(text, init);
      var t := RuleText(last);
      if Fires(text, last) {
        assert FiredTexts(text, rules) == fired + [t];
        FilterAppend(fired, [t], IsReviewReason);
        assert [t][..0] == [];
        AppendNewConcat(st.reasons, Filter(fired, IsReviewReason), Filter([t], IsReviewReason));
        ReviewReasonIff(t);
        if IsReviewReason(t) {
          assert Filter([t], IsReviewReason) == [t];
          AppendNewOne(prev.reasons, t);
          assert ScanRules(text, id, rules, st).reasons == (if t in prev.reasons then prev.reasons else prev.reasons + [t]);
        } else {
          assert Filter([t], IsReviewReason) == [];
          assert ScanRules(text, id, rules, st).reasons == prev.reasons;
        }
      } else {
        assert FiredTexts(text, rules) == fired;
      }
    }
  }
}
