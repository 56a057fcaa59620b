/** First-match evaluation of a compiled policy, and what it means for the raw rules. */
module Evaluator {
  import opened Values
  import opened Ordering
  import opened Compiler

  datatype EvaluationInput = EvaluationInput(
    tool: string,
    args: map<string, Value>,
    subject: Option<string>,
    subjectAttrs: Option<map<string, Value>>)

  /** The parts the reason text is formatted from. */
  datatype Reason =
    | NoTargetedArgs
    | Redacted(names: seq<string>)
    | Fired(ruleId: string, action: string)
    | NoRuleMatched

  /** An evaluation result without its latency. */
  datatype EvaluationResult = EvaluationResult(
    verdict: string,
    ruleId: string,
    reason: Reason,
    redactions: seq<string>,
    matchedFrameworkTags: seq<string>)

  predicate Matches(pattern: MatchPattern, inp: EvaluationInput) {
    && (pattern.tool.Some? ==> pattern.tool.value == inp.tool)
    && pattern.argKeysPresent <= inp.args.Keys
    && (forall k | k in pattern.argEquals :: PyEq(Get(inp.args, k), pattern.argEquals[k]))
    && (pattern.subjectAttr.Some? ==>
          inp.subjectAttrs.Some? && pattern.subjectAttr.value in inp.subjectAttrs.value)
  }

  /** The path names an argument of the call. */
  predicate IsTargeted(path: string, args: map<string, Value>) { IsArgKey(path) && ArgName(path) in args }

  function PresentPaths(paths: seq<string>, args: map<string, Value>): seq<string> {
    Filter(paths, p => IsTargeted(p, args))
  }

  function ArgNames(paths: seq<string>): seq<string> {
    seq(|paths|, i requires 0 <= i < |paths| => ArgName(paths[i]))
  }

  function ResolveAction(rule: CompiledRule, inp: EvaluationInput): EvaluationResult {
    var base := BaseAction(rule.action);
    if base == "redact" then
      var present := PresentPaths(rule.redactPaths, inp.args);
      if present == [] then
        EvaluationResult("allow", rule.ruleId + ".no-op-redact", NoTargetedArgs, [], rule.frameworkTags)
      else
        EvaluationResult("redact", rule.ruleId, Redacted(ArgNames(present)), present, rule.frameworkTags)
    else
      EvaluationResult(base, rule.ruleId, Fired(rule.ruleId, base), [], rule.frameworkTags)
  }

  const DEFAULT_DENY: EvaluationResult :=
    EvaluationResult("deny", "default.fail_safe", NoRuleMatched, [], [])

  function EvaluateRules(rules: seq<CompiledRule>, inp: EvaluationInput): EvaluationResult {
    if rules == [] then DEFAULT_DENY
    else if Matches(rules[0].pattern, inp) then ResolveAction(rules[0], inp)
    else EvaluateRules(rules[1..], inp)
  }

  function Evaluate(policy: CompiledPolicy, inp: EvaluationInput): EvaluationResult {
    EvaluateRules(policy.rules, inp)
  }

  // ---------------------------------------------------------------------------
  // The declarative semantics: what a list of raw rules says about a call
  // ---------------------------------------------------------------------------

  /** One entry of a `when` table; keys of no known class say nothing. */
  predicate ConditionHolds(k: string, v: Value, inp: EvaluationInput) {
    if k == "tool" then
      v == Null || v == Str("*") || v.Text() == inp.tool
    else if k == "subject_attr" then
      !v.Truthy() || (inp.subjectAttrs.Some? && v.Text() in inp.subjectAttrs.value)
    else if IsArgKey(k) then
      if v == Bool(true) then ArgName(k) in inp.args else PyEq(Get(inp.args, ArgName(k)), v)
    else true
  }

  predicate RawMatches(raw: RawRule, inp: EvaluationInput) {
    var conditions := Conditions(raw);
    forall k | k in conditions :: ConditionHolds(k, conditions[k], inp)
  }

  /** raw rule i goes before raw rule j: by priority, then action rank, then position. */
  predicate Precedes(rules: seq<RawRule>, i: nat, j: nat)
    requires i < |rules| && j < |rules|
  {
    var p, q := Priority(rules[i]), Priority(rules[j]);
    var r, s := ActionRank(rules[i].action), ActionRank(rules[j].action);
    p < q || (p == q && (r < s || (r == s && i < j)))
  }

  /** Rule i decides the call: it matches, and it goes before every other rule that does. */
  ghost predicate Decides(rules: seq<RawRule>, inp: EvaluationInput, i: nat) {
    && i < |rules| && RawMatches(rules[i], inp)
    && forall j | 0 <= j < |rules| && j != i && RawMatches(rules[j], inp) :: Precedes(rules, i, j)
  }

  /** What a raw rule answers once it has been found to decide the call. */
  ghost function Answer(raw: RawRule, inp: EvaluationInput): EvaluationResult {
    ResolveAction(ParseRule(raw), inp)
  }

  ghost function Meaning(rules: seq<RawRule>, inp: EvaluationInput): EvaluationResult {
    EvaluateRules(StableSort(ParseRules(rules), RuleLe), inp)
  }

  /** The parsed pattern matches exactly the calls on which every `when` entry holds. */
  lemma PatternMatchesRaw(raw: RawRule, inp: EvaluationInput)
    ensures Matches(PatternOf(Conditions(raw)), inp) <==> RawMatches(raw, inp)
  {
    var c := Conditions(raw);
    var pattern := PatternOf(c);
    assert !IsArgKey("tool") && "subject_attr"[0] == 's' && !IsArgKey("subject_attr");
    if RawMatches(raw, inp) {
      forall name | name in pattern.argKeysPresent ensures name in inp.args {
        var k :| k in c && IsArgKey(k) && c[k] == Bool(true) && ArgName(k) == name;
        assert ConditionHolds(k, c[k], inp);
      }
      forall name | name in pattern.argEquals
        ensures PyEq(Get(inp.args, name), pattern.argEquals[name])
      {
        var k :| k in c && IsArgKey(k) && c[k] != Bool(true) && ArgName(k) == name;
        assert k == ARGS + name && pattern.argEquals[name] == c[k];
        assert ConditionHolds(k, c[k], inp);
      }
      if "tool" in c { assert ConditionHolds("tool", c["tool"], inp); }
      if "subject_attr" in c { assert ConditionHolds("subject_attr", c["subject_attr"], inp); }
    }
    if Matches(pattern, inp) {
      forall k | k in c ensures ConditionHolds(k, c[k], inp) {
        if IsArgKey(k) {
          if c[k] == Bool(true) {
            assert ArgName(k) in pattern.argKeysPresent;
          } else {
            assert ArgName(k) in pattern.argEquals && pattern.argEquals[ArgName(k)] == c[k];
          }
        }
      }
    }
  }

  lemma {:induction false} EvaluateIsFirst(rules: seq<CompiledRule>, inp: EvaluationInput)
    ensures var first := First(rules, (r: CompiledRule) => Matches(r.pattern, inp));
            EvaluateRules(rules, inp) ==
            if first.Some? then ResolveAction(first.value, inp) else DEFAULT_DENY
  {
    if rules != [] {
      EvaluateIsFirst(rules[1..], inp);
    }
  }

  lemma DecidesUnique(rules: seq<RawRule>, inp: EvaluationInput, i: nat, j: nat)
    requires Decides(rules, inp, i) && Decides(rules, inp, j)
    ensures i == j
  {
  }

  /** Compile-then-evaluate is the declarative semantics of the unsorted raw rules: the rule
      that decides the call answers it, and with no matching rule the answer is deny. */
  lemma MeaningIsDeclarative(rules: seq<RawRule>, inp: EvaluationInput)
    ensures (exists i: nat :: i < |rules| && RawMatches(rules[i], inp)) <==>
            exists i: nat :: Decides(rules, inp, i)
    ensures forall i: nat | Decides(rules, inp, i) :: Meaning(rules, inp) == Answer(rules[i], inp)
    ensures (forall i: nat | i < |rules| :: !RawMatches(rules[i], inp)) ==>
              Meaning(rules, inp) == DEFAULT_DENY
  {
    var parsed := ParseRules(rules);
    var p := (r: CompiledRule) => Matches(r.pattern, inp);
    forall i: nat | i < |rules| ensures p(parsed[i]) <==> RawMatches(rules[i], inp) {
      PatternMatchesRaw(rules[i], inp);
    }
    FirstOfSort(parsed, p, RuleLe);
    EvaluateIsFirst(StableSort(parsed, RuleLe), inp);
    var first := First(StableSort(parsed, RuleLe), p);
    if first.Some? {
      var i :| IsLeast(parsed, p, RuleLe, i) && first == Some(parsed[i]);
      assert RawMatches(rules[i], inp);
      forall j | 0 <= j < |rules| && j != i && RawMatches(rules[j], inp)
        ensures Precedes(rules, i, j)
      {
        assert p(parsed[j]) && RuleLe(parsed[i], parsed[j]);
      }
      assert Decides(rules, inp, i);
      assert Meaning(rules, inp) == Answer(rules[i], inp);
      forall j: nat | Decides(rules, inp, j) ensures j == i { DecidesUnique(rules, inp, i, j); }
    } else {
      forall i: nat | i < |rules| ensures !RawMatches(rules[i], inp) { assert !p(parsed[i]); }
    }
  }

  /** What the unsorted rules say about a call, with no order of evaluation: the deciding rule's
      answer, or deny by default. */
  ghost predicate RulesSay(rules: seq<RawRule>, inp: EvaluationInput, result: EvaluationResult) {
    if exists i: nat :: i < |rules| && RawMatches(rules[i], inp) then
      exists i: nat :: Decides(rules, inp, i) && result == Answer(rules[i], inp)
    else result == DEFAULT_DENY
  }

  /** The compiled policy returns a result exactly when the raw rules say it. */
  lemma MeaningIsWhatRulesSay(rules: seq<RawRule>, inp: EvaluationInput, result: EvaluationResult)
    ensures Meaning(rules, inp) == result <==> RulesSay(rules, inp, result)
  {
    hide Meaning, Answer, Precedes, RawMatches;
    if k: nat :| k < |rules| && RawMatches(rules[k], inp) {
      var i := OneRuleDecides(rules, inp, k);
      DeciderAnswers(rules, inp, i);
    } else {
      UnmatchedIsDenied(rules, inp);
    }
  }

  /** The rule that decides a call answers it, wherever it stands in the list. */
  lemma DeciderAnswers(rules: seq<RawRule>, inp: EvaluationInput, i: nat)
    requires Decides(rules, inp, i)
    ensures Meaning(rules, inp) == Answer(rules[i], inp)
  {
    MeaningIsDeclarative(rules, inp);
  }

  /** With no matching rule the answer is the fail-safe deny. */
  lemma UnmatchedIsDenied(rules: seq<RawRule>, inp: EvaluationInput)
    requires forall raw | raw in rules :: !RawMatches(raw, inp)
    ensures Meaning(rules, inp) == DEFAULT_DENY == EvaluationResult("deny", "default.fail_safe", NoRuleMatched, [], [])
  {
    MeaningIsDeclarative(rules, inp);
  }

  /** As soon as a rule matches, exactly one rule decides. */
  lemma OneRuleDecides(rules: seq<RawRule>, inp: EvaluationInput, k: nat) returns (i: nat)
    requires k < |rules| && RawMatches(rules[k], inp)
    ensures Decides(rules, inp, i) && forall j: nat | Decides(rules, inp, j) :: j == i
  {
    MeaningIsDeclarative(rules, inp);
    i :| Decides(rules, inp, i);
    forall j: nat | Decides(rules, inp, j) ensures j == i { DecidesUnique(rules, inp, i, j); }
  }

  /** The compiled policy a bundle is compiled to evaluates to the bundle's meaning. */
  lemma EvaluateCompiled(policyId: string, name: string, version: string,
                         rules: seq<RawRule>, tags: seq<string>, inp: EvaluationInput)
    ensures Evaluate(Compile(policyId, name, version, rules, tags), inp) == Meaning(rules, inp)
  {
  }

  /** What a rule answers: its own action; or, for a redact rule, those of its paths that name an
      argument of the call, in their order, and an allow under a marked rule id when there are
      none. */
  lemma AnswerOf(raw: RawRule, inp: EvaluationInput) returns (keep: seq<nat>)
    ensures var a, paths := Answer(raw, inp), RedactPaths(raw.action);
            && a.matchedFrameworkTags == (if raw.frameworkTags.Some? then raw.frameworkTags.value else [])
            && IsSelection(keep, |paths|)
            && (forall i: nat | i < |paths| :: i in keep <==> "args." <= paths[i] && paths[i][5..] in inp.args)
            && (forall verb | ':' !in verb && verb != "redact" && IsVerb(raw.action, verb) ::
                  && a.verdict == verb && a.ruleId == raw.ruleId && a.redactions == []
                  && a.reason == Fired(raw.ruleId, verb))
            && (IsVerb(raw.action, "redact") ==>
                  && a.redactions == Select(paths, keep)
                  && (if keep == [] then
                        a.verdict == "allow" && a.ruleId == raw.ruleId + ".no-op-redact" && a.reason == NoTargetedArgs
                      else
                        && a.verdict == "redact" && a.ruleId == raw.ruleId
                        && a.reason.Redacted? && |a.reason.names| == |a.redactions|
                        && forall x | 0 <= x < |a.redactions| :: a.redactions[x] == "args." + a.reason.names[x]))
  {
    hide BaseAction, RedactPaths, IsVerb;
    var p := (p: string) => IsTargeted(p, inp.args);
    keep := FilterSelects(RedactPaths(raw.action), p);
    VerbIsBase(raw.action, "redact");
    forall verb | ':' !in verb ensures BaseAction(raw.action) == verb <==> IsVerb(raw.action, verb) {
      VerbIsBase(raw.action, verb);
    }
    FilterMembers(RedactPaths(raw.action), p);
    var redactions := Answer(raw, inp).redactions;
    forall x | 0 <= x < |redactions| ensures redactions[x] == ARGS + ArgName(redactions[x]) {
      assert redactions[x] in redactions && p(redactions[x]);
    }
  }

  /** An allow rule, or a redact rule none of whose paths names an argument of the call. */
  ghost predicate Permits(raw: RawRule, inp: EvaluationInput) {
    || IsVerb(raw.action, "allow")
    || (IsVerb(raw.action, "redact") && forall p | p in RedactPaths(raw.action) :: !("args." <= p && p[5..] in inp.args))
  }

  lemma AnswerAllows(raw: RawRule, inp: EvaluationInput)
    ensures Answer(raw, inp).verdict == "allow" <==> Permits(raw, inp)
  {
    hide RedactPaths, BaseAction, IsVerb;
    VerbIsBase(raw.action, "allow");
    VerbIsBase(raw.action, "redact");
    FilterMembers(RedactPaths(raw.action), p => IsTargeted(p, inp.args));
    var present := PresentPaths(RedactPaths(raw.action), inp.args);
    assert present != [] ==> present[0] in present;
  }

  /** A call is allowed exactly when the rule that decides it permits it. */
  lemma AllowOnlyFrom(rules: seq<RawRule>, inp: EvaluationInput)
    ensures Meaning(rules, inp).verdict == "allow" <==>
            exists i: nat :: Decides(rules, inp, i) && Permits(rules[i], inp)
  {
    MeaningIsDeclarative(rules, inp);
    if exists i: nat :: Decides(rules, inp, i) {
      var i: nat :| Decides(rules, inp, i);
      AnswerAllows(rules[i], inp);
      forall j: nat | Decides(rules, inp, j) ensures j == i { DecidesUnique(rules, inp, i, j); }
    }
  }
}
