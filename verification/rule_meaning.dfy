/** What rules mean, said without the engine's own vocabulary: literal keys, actions, priorities
    and values. */
module RuleMeaning {
  import opened Values
  import opened Text
  import opened Ordering
  import opened Compiler
  import opened Evaluator

  // ---------------------------------------------------------------------------
  // Which rule decides
  // ---------------------------------------------------------------------------

  predicate SameVerb(a: string, b: string) {
    forall verb | verb in {"deny", "redact", "allow"} :: IsVerb(a, verb) == IsVerb(b, verb)
  }

  /** The rule that decides goes before every other that matches: first by priority, where none
      means 100; then deny before redact before allow before anything else; then by position. */
  lemma DeciderComesFirst(rules: seq<RawRule>, inp: EvaluationInput, i: nat, j: nat)
    requires Decides(rules, inp, i) && j < |rules| && RawMatches(rules[j], inp)
    ensures var p := if rules[i].priority.Some? then rules[i].priority.value else 100;
            var q := if rules[j].priority.Some? then rules[j].priority.value else 100;
            var a, b := rules[i].action, rules[j].action;
            && p <= q
            && (p == q ==>
                  && (IsVerb(b, "deny") ==> IsVerb(a, "deny"))
                  && (IsVerb(b, "redact") ==> IsVerb(a, "deny") || IsVerb(a, "redact"))
                  && (IsVerb(b, "allow") ==> IsVerb(a, "deny") || IsVerb(a, "redact") || IsVerb(a, "allow"))
                  && (SameVerb(a, b) ==> i <= j))
  {
    hide BaseAction, IsVerb, RawMatches;
    assert i == j || Precedes(rules, i, j);
    Verbs(rules[i].action);
    Verbs(rules[j].action);
  }

  lemma Verbs(action: string)
    ensures BaseAction(action) == "deny" <==> IsVerb(action, "deny")
    ensures BaseAction(action) == "redact" <==> IsVerb(action, "redact")
    ensures BaseAction(action) == "allow" <==> IsVerb(action, "allow")
  {
    VerbIsBase(action, "deny");
    VerbIsBase(action, "redact");
    VerbIsBase(action, "allow");
  }

  /** Deny overrides: when a deny rule matches and no matching rule has a smaller priority, the
      compiled policy denies, whatever else matches at that priority and wherever it stands. */
  lemma DenyOverrides(policyId: string, name: string, version: string, rules: seq<RawRule>, tags: seq<string>,
                      inp: EvaluationInput, d: nat)
    requires d < |rules| && IsVerb(rules[d].action, "deny") && RawMatches(rules[d], inp)
    requires var p := if rules[d].priority.Some? then rules[d].priority.value else 100;
             forall r | r in rules && RawMatches(r, inp) :: p <= if r.priority.Some? then r.priority.value else 100
    ensures Evaluate(Compile(policyId, name, version, rules, tags), inp).verdict == "deny"
  {
    hide RawMatches, IsVerb, Decides, Evaluate, Compile, Answer, Meaning;
    var i := OneRuleDecides(rules, inp, d);
    DeciderIsRule(rules, inp, i);
    DeciderComesFirst(rules, inp, i, d);
    DeciderAnswers(rules, inp, i);
    var keep := AnswerOf(rules[i], inp);
    EvaluateCompiled(policyId, name, version, rules, tags, inp);
  }

  lemma DeciderIsRule(rules: seq<RawRule>, inp: EvaluationInput, i: nat)
    requires Decides(rules, inp, i)
    ensures i < |rules| && rules[i] in rules && RawMatches(rules[i], inp)
  {
  }

  // ---------------------------------------------------------------------------
  // Which calls an entry of a `when` table holds on
  // ---------------------------------------------------------------------------

  /** An allow rule with this one entry, alone in a policy, lets the call through. */
  ghost predicate Lets(k: string, v: Value, inp: EvaluationInput) {
    var raw := RawRule("r", Some(map[k := v]), "allow", None, None);
    Evaluate(Compile("p", "p", "1", [raw], []), inp).verdict == "allow"
  }

  lemma LetsIsHolding(k: string, v: Value, inp: EvaluationInput)
    ensures Lets(k, v, inp) <==> ConditionHolds(k, v, inp)
  {
    hide ConditionHolds, Answer;
    var raw := RawRule("r", Some(map[k := v]), "allow", None, None);
    EvaluateCompiled("p", "p", "1", [raw], [], inp);
    assert RawMatches(raw, inp) <==> ConditionHolds(k, v, inp) by {
      assert k in Conditions(raw) && Conditions(raw)[k] == v;
    }
    hide RawMatches, Evaluate, Compile, Meaning;
    if ConditionHolds(k, v, inp) {
      var i := OneRuleDecides([raw], inp, 0);
      DeciderIsRule([raw], inp, i);
      DeciderAnswers([raw], inp, i);
      assert IsVerb(raw.action, "allow");
      var keep := AnswerOf(raw, inp);
    } else {
      UnmatchedIsDenied([raw], inp);
    }
  }

  /** A rule matches exactly the calls on which each of its entries holds by itself; without a
      table, every call. */
  lemma EntriesConjoin(raw: RawRule, inp: EvaluationInput)
    ensures RawMatches(raw, inp) <==>
            raw.conditions.None? || forall k | k in raw.conditions.value :: Lets(k, raw.conditions.value[k], inp)
  {
    hide Lets, ConditionHolds;
    var c := Conditions(raw);
    forall k | k in c ensures Lets(k, c[k], inp) <==> ConditionHolds(k, c[k], inp) { LetsIsHolding(k, c[k], inp); }
    if raw.conditions.Some? {
      assert c == raw.conditions.value;
      if forall k | k in raw.conditions.value :: Lets(k, raw.conditions.value[k], inp) {
        forall k | k in c ensures ConditionHolds(k, c[k], inp) { assert Lets(k, raw.conditions.value[k], inp); }
      }
    }
  }

  /** An entry on an argument. True asks for its presence, whatever the value. A string, another
      boolean, a number, a list or a table asks for an argument of that value; and None also
      accepts an argument that is missing. */
  lemma ArgEntry(name: string, v: Value, inp: EvaluationInput)
    ensures var held := Lets("args." + name, v, inp);
            var there, arg := name in inp.args, if name in inp.args then inp.args[name] else Null;
            && (v == Bool(true) ==> (held <==> there))
            && (v == Bool(false) ==> (held <==> there && (arg == v || (arg.Number? && arg.quantity == 0.0))))
            && (v.Null? ==> (held <==> !there || arg == Null))
            && (v.Str? ==> (held <==> there && arg == v))
            && (v.Number? ==>
                  (held <==> there && ((arg.Number? && arg.quantity == v.quantity) ||
                                       (arg.Bool? && v.quantity == if arg.b then 1.0 else 0.0))))
            && (v.List? ==>
                  (held <==> there && arg.List? && |arg.items| == |v.items| &&
                             forall i | 0 <= i < |v.items| :: PyEq(arg.items[i], v.items[i])))
            && (v.Dict? ==>
                  (held <==> there && arg.Dict? && arg.entries.Keys == v.entries.Keys &&
                             forall k | k in v.entries :: PyEq(arg.entries[k], v.entries[k])))
  {
    hide Lets, PyEq;
    var k := "args." + name;
    LetsIsHolding(k, v, inp);
    assert k[0] == 'a' && k != "tool" && k != "subject_attr";
    assert IsArgKey(k) && ArgName(k) == name;
    EqualExactly(Get(inp.args, name), v);
  }

  /** An entry on the tool: None and "*" accept every tool; anything else the tool of its text. */
  lemma ToolEntry(v: Value, inp: EvaluationInput)
    ensures var held := Lets("tool", v, inp);
            && (v.Null? ==> held)
            && (v.Str? ==> (held <==> v.s == "*" || v.s == inp.tool))
            && (v.Bool? ==> (held <==> inp.tool == if v.b then "True" else "False"))
            && (v.Number? || v.List? || v.Dict? ==> (held <==> v.text == inp.tool))
  {
    hide Lets;
    LetsIsHolding("tool", v, inp);
  }

  /** An entry on a subject attribute: an empty value asks for nothing; anything else for an
      attribute called by its text. */
  lemma SubjectEntry(v: Value, inp: EvaluationInput)
    ensures var held := Lets("subject_attr", v, inp);
            var attrs := if inp.subjectAttrs.Some? then inp.subjectAttrs.value.Keys else {};
            && (v.Null? ==> held)
            && (v.Str? ==> (held <==> v.s == "" || v.s in attrs))
            && (v.Bool? ==> (held <==> !v.b || "True" in attrs))
            && (v.Number? ==> (held <==> v.quantity == 0.0 || v.text in attrs))
            && (v.List? ==> (held <==> v.items == [] || v.text in attrs))
            && (v.Dict? ==> (held <==> v.entries == map[] || v.text in attrs))
  {
    hide Lets;
    LetsIsHolding("subject_attr", v, inp);
  }

  /** Any other key says nothing. */
  lemma OtherEntry(k: string, v: Value, inp: EvaluationInput)
    requires k != "tool" && k != "subject_attr" && !("args." <= k)
    ensures Lets(k, v, inp)
  {
    hide Lets;
    LetsIsHolding(k, v, inp);
  }
}
