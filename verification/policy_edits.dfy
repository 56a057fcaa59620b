/** What editing, reordering or re-asking a policy can and cannot change. */
module PolicyEdits {
  import opened Values
  import opened Text
  import opened Ordering
  import opened Compiler
  import opened Evaluator

  /** A deciding rule still decides after other rules are deleted. */
  lemma DecidesInSelection(rules: seq<RawRule>, keep: seq<nat>, inp: EvaluationInput, x: nat)
    requires IsSelection(keep, |rules|) && x < |keep| && Decides(rules, inp, keep[x])
    ensures Decides(Select(rules, keep), inp, x)
    ensures Meaning(Select(rules, keep), inp) == Meaning(rules, inp)
  {
    var sub := Select(rules, keep);
    forall y | 0 <= y < |sub| && y != x && RawMatches(sub[y], inp) ensures Precedes(sub, x, y) {
      assert Precedes(rules, keep[x], keep[y]);
    }
    MeaningIsDeclarative(rules, inp);
    MeaningIsDeclarative(sub, inp);
    assert sub[x] == rules[keep[x]];
  }

  function Inserted(rules: seq<RawRule>, at: nat, r: RawRule): seq<RawRule>
    requires at <= |rules|
  {
    rules[..at] + [r] + rules[at..]
  }

  /** Adding a rule anywhere either changes nothing, or the new rule itself answers. */
  lemma InsertionIsLocal(rules: seq<RawRule>, at: nat, r: RawRule, inp: EvaluationInput)
    requires at <= |rules|
    ensures var after := Inserted(rules, at, r);
            if Decides(after, inp, at) then Meaning(after, inp) == Answer(r, inp)
            else Meaning(after, inp) == Meaning(rules, inp)
  {
    hide Meaning, Answer, RawMatches;
    var after := Inserted(rules, at, r);
    var keep := seq(|rules|, x requires 0 <= x < |rules| => if x < at then x else x + 1);
    assert Select(after, keep) == rules;
    if k: nat :| k < |after| && RawMatches(after[k], inp) {
      var i := OneRuleDecides(after, inp, k);
      if i == at {
        DeciderAnswers(after, inp, at);
      } else {
        var x := if i < at then i else i - 1;
        assert keep[x] == i;
        DecidesInSelection(after, keep, inp, x);
      }
    } else {
      assert forall x | 0 <= x < |rules| :: rules[x] == after[keep[x]];
      UnmatchedIsDenied(rules, inp);
      UnmatchedIsDenied(after, inp);
    }
  }

  /** Adding a deny rule never lifts a deny. */
  lemma DenyIsMonotone(rules: seq<RawRule>, at: nat, r: RawRule, inp: EvaluationInput)
    requires at <= |rules| && BaseAction(r.action) == "deny"
    requires Meaning(rules, inp).verdict == "deny"
    ensures Meaning(Inserted(rules, at, r), inp).verdict == "deny"
  {
    InsertionIsLocal(rules, at, r, inp);
  }

  /** Adding an allow rule never revokes an allow. */
  lemma AllowIsMonotone(rules: seq<RawRule>, at: nat, r: RawRule, inp: EvaluationInput)
    requires at <= |rules| && BaseAction(r.action) == "allow"
    requires Meaning(rules, inp).verdict == "allow"
    ensures Meaning(Inserted(rules, at, r), inp).verdict == "allow"
  {
    InsertionIsLocal(rules, at, r, inp);
  }

  /** Any set of rules that go after a rule matching every call can be deleted. */
  lemma ShadowedRulesAreDead(rules: seq<RawRule>, u: nat, keep: seq<nat>, inp: EvaluationInput)
    requires u < |rules| && forall any :: RawMatches(rules[u], any)
    requires IsSelection(keep, |rules|)
    requires forall j: nat | j < |rules| && j !in keep :: j != u && Precedes(rules, u, j)
    ensures Meaning(Select(rules, keep), inp) == Meaning(rules, inp)
  {
    MeaningIsDeclarative(rules, inp);
    assert RawMatches(rules[u], inp);
    var i: nat :| Decides(rules, inp, i);
    assert i == u || Precedes(rules, i, u);
    assert i in keep;
    var x: nat :| x < |keep| && keep[x] == i;
    DecidesInSelection(rules, keep, inp, x);
  }

  // ---------------------------------------------------------------------------
  // Reordering
  // ---------------------------------------------------------------------------

  ghost predicate RawLe(a: RawRule, b: RawRule) {
    KeyLe(Priority(a), ActionRank(a.action), Priority(b), ActionRank(b.action))
  }

  ghost predicate SameKey(a: RawRule, b: RawRule) { RawLe(a, b) && RawLe(b, a) }

  /** A matching rule whose sort key is the least among the matching rules. */
  ghost predicate IsContender(rules: seq<RawRule>, inp: EvaluationInput, c: RawRule) {
    c in rules && RawMatches(c, inp) && forall r | r in rules && RawMatches(r, inp) :: RawLe(c, r)
  }

  lemma SameMembers(rules: seq<RawRule>, other: seq<RawRule>)
    requires multiset(rules) == multiset(other)
    ensures forall r :: r in rules <==> r in other
  {
    forall r ensures r in rules <==> r in other {
      assert r in rules <==> r in multiset(rules);
      assert r in other <==> r in multiset(other);
    }
  }

  /** Whoever decides in some order of the rules is a contender. */
  lemma DeciderIsContender(rules: seq<RawRule>, inp: EvaluationInput, i: nat)
    requires Decides(rules, inp, i)
    ensures IsContender(rules, inp, rules[i])
  {
    hide RawMatches;
    forall r | r in rules && RawMatches(r, inp) ensures RawLe(rules[i], r) {
      var j :| 0 <= j < |rules| && rules[j] == r;
      assert j == i || Precedes(rules, i, j);
    }
  }

  /** In every order of the rules a contender answers, or nothing matches. */
  lemma ContenderAnswers(rules: seq<RawRule>, other: seq<RawRule>, inp: EvaluationInput)
    requires multiset(rules) == multiset(other)
    ensures (exists c :: IsContender(rules, inp, c) && Meaning(other, inp) == Answer(c, inp)) ||
            ((forall c :: !IsContender(rules, inp, c)) && Meaning(other, inp) == DEFAULT_DENY)
  {
    hide RawMatches, Meaning, Answer, RawLe, Decides;
    SameMembers(rules, other);
    if k: nat :| k < |other| && RawMatches(other[k], inp) {
      var i := OneRuleDecides(other, inp, k);
      DeciderIsContender(other, inp, i);
      DeciderAnswers(other, inp, i);
      assert IsContender(rules, inp, other[i]);
    } else {
      UnmatchedIsDenied(other, inp);
    }
  }

  /** And every contender answers in some order. */
  lemma EveryContenderCanAnswer(rules: seq<RawRule>, inp: EvaluationInput, c: RawRule) returns (other: seq<RawRule>)
    requires IsContender(rules, inp, c)
    ensures multiset(other) == multiset(rules) && Meaning(other, inp) == Answer(c, inp)
  {
    hide RawMatches, Meaning, Answer;
    var i :| 0 <= i < |rules| && rules[i] == c;
    other := [c] + rules[..i] + rules[i + 1..];
    assert rules == rules[..i] + [c] + rules[i + 1..];
    SameMembers(rules, other);
    forall j | 0 <= j < |other| && j != 0 && RawMatches(other[j], inp) ensures Precedes(other, 0, j) {
      assert other[j] in other && RawLe(c, other[j]);
    }
    assert Decides(other, inp, 0);
    DeciderAnswers(other, inp, 0);
  }

  /** Exactly when the order of the rules does not matter to the verdict on a call: when all
      contenders give the same verdict. */
  lemma VerdictOrderFreeExactly(rules: seq<RawRule>, inp: EvaluationInput)
    ensures (forall other | multiset(other) == multiset(rules) :: Meaning(other, inp).verdict == Meaning(rules, inp).verdict)
            <==>
            (forall a, b | IsContender(rules, inp, a) && IsContender(rules, inp, b) ::
               Answer(a, inp).verdict == Answer(b, inp).verdict)
  {
    hide Meaning, Answer, IsContender;
    if forall other | multiset(other) == multiset(rules) :: Meaning(other, inp).verdict == Meaning(rules, inp).verdict {
      forall a, b | IsContender(rules, inp, a) && IsContender(rules, inp, b)
        ensures Answer(a, inp).verdict == Answer(b, inp).verdict
      {
        var first := EveryContenderCanAnswer(rules, inp, a);
        var second := EveryContenderCanAnswer(rules, inp, b);
      }
    }
    ContenderAnswers(rules, rules, inp);
    forall other | multiset(other) == multiset(rules)
      ensures (forall a, b | IsContender(rules, inp, a) && IsContender(rules, inp, b) ::
                 Answer(a, inp).verdict == Answer(b, inp).verdict) ==>
                Meaning(other, inp).verdict == Meaning(rules, inp).verdict
    {
      ContenderAnswers(rules, other, inp);
    }
  }

  /** And to the whole result: when all contenders give the same answer. */
  lemma ResultOrderFreeExactly(rules: seq<RawRule>, inp: EvaluationInput)
    ensures (forall other | multiset(other) == multiset(rules) :: Meaning(other, inp) == Meaning(rules, inp))
            <==>
            (forall a, b | IsContender(rules, inp, a) && IsContender(rules, inp, b) :: Answer(a, inp) == Answer(b, inp))
  {
    hide Meaning, Answer, IsContender;
    if forall other | multiset(other) == multiset(rules) :: Meaning(other, inp) == Meaning(rules, inp) {
      forall a, b | IsContender(rules, inp, a) && IsContender(rules, inp, b) ensures Answer(a, inp) == Answer(b, inp) {
        var first := EveryContenderCanAnswer(rules, inp, a);
        var second := EveryContenderCanAnswer(rules, inp, b);
      }
    }
    ContenderAnswers(rules, rules, inp);
    forall other | multiset(other) == multiset(rules)
      ensures (forall a, b | IsContender(rules, inp, a) && IsContender(rules, inp, b) ::
                 Answer(a, inp) == Answer(b, inp)) ==>
                Meaning(other, inp) == Meaning(rules, inp)
    {
      ContenderAnswers(rules, other, inp);
    }
  }

  /** Deny and allow rules of one key are of one verdict. */
  lemma PlainVerdicts(a: RawRule, b: RawRule, inp: EvaluationInput)
    requires SameKey(a, b)
    requires BaseAction(a.action) == "deny" || BaseAction(a.action) == "allow"
    requires BaseAction(b.action) == "deny" || BaseAction(b.action) == "allow"
    ensures Answer(a, inp).verdict == Answer(b, inp).verdict
  {
  }

  /** With only deny and allow rules, no reordering of the rules changes a verdict. */
  lemma VerdictIsOrderFree(rules: seq<RawRule>, other: seq<RawRule>, inp: EvaluationInput)
    requires multiset(rules) == multiset(other)
    requires forall r | r in rules :: BaseAction(r.action) == "deny" || BaseAction(r.action) == "allow"
    ensures Meaning(rules, inp).verdict == Meaning(other, inp).verdict
  {
    hide Meaning, Answer, RawMatches;
    forall a, b | IsContender(rules, inp, a) && IsContender(rules, inp, b)
      ensures Answer(a, inp).verdict == Answer(b, inp).verdict
    {
      PlainVerdicts(a, b, inp);
    }
    VerdictOrderFreeExactly(rules, inp);
  }

  lemma FirstOfTwo(a: RawRule, b: RawRule, inp: EvaluationInput)
    requires SameKey(a, b) && RawMatches(a, inp) && RawMatches(b, inp)
    ensures Meaning([a, b], inp) == Answer(a, inp)
  {
    hide Meaning, Answer, RawMatches, BaseAction;
    assert Decides([a, b], inp, 0);
    DeciderAnswers([a, b], inp, 0);
  }

  lemma TwoRedactActions()
    ensures BaseAction("redact:" + "args.x") == "redact" && RedactPaths("redact:" + "args.x") == ["args.x"]
    ensures BaseAction("redact") == "redact" && RedactPaths("redact") == []
  {
    hide RedactPaths, BaseAction;
    VerbIsBase("redact:" + "args.x", "redact");
    VerbIsBase("redact", "redact");
    OnePath();
    OtherActionsNameNoPaths("redact");
  }

  lemma OnePath()
    ensures RedactPaths("redact:" + "args.x") == ["args.x"]
  {
    hide RedactPaths;
    RedactRoundTrip(["args.x"], [("", "")]);
    assert Printed(["args.x"], [("", "")]) == ["" + "args.x" + ""];
    assert "" + "args.x" + "" == "args.x";
    assert Join(["args.x"], ",") == "args.x";
  }

  /** Redact rules are different: on any call with an argument x, these two of one key redact
      it in one order and allow it in the other. */
  lemma RedactOrderShows(inp: EvaluationInput)
    requires "x" in inp.args
    ensures var a := RawRule("a", None, "redact:" + "args.x", None, None);
            var b := RawRule("b", None, "redact", None, None);
            Meaning([a, b], inp).verdict == "redact" && Meaning([b, a], inp).verdict == "allow"
  {
    hide Meaning, RedactPaths, BaseAction;
    var a := RawRule("a", None, "redact:" + "args.x", None, None);
    var b := RawRule("b", None, "redact", None, None);
    TwoRedactActions();
    FirstOfTwo(a, b, inp);
    FirstOfTwo(b, a, inp);
    assert ArgName("args.x") == "x" && IsTargeted("args.x", inp.args);
    assert PresentPaths(["args.x"], inp.args) == ["args.x"] + PresentPaths(["args.x"][1..], inp.args);
  }

  /** With distinct sort keys, no reordering changes anything, whatever the actions. */
  lemma ResultIsOrderFree(rules: seq<RawRule>, other: seq<RawRule>, inp: EvaluationInput)
    requires multiset(rules) == multiset(other)
    requires forall i, j | 0 <= i < j < |rules| :: !SameKey(rules[i], rules[j])
    ensures Meaning(rules, inp) == Meaning(other, inp)
  {
    hide Meaning, Answer, RawMatches, RawLe;
    forall a, b | IsContender(rules, inp, a) && IsContender(rules, inp, b) ensures Answer(a, inp) == Answer(b, inp) {
      var i :| 0 <= i < |rules| && rules[i] == a;
      var j :| 0 <= j < |rules| && rules[j] == b;
      assert SameKey(rules[i], rules[j]) && SameKey(rules[j], rules[i]);
    }
    ResultOrderFreeExactly(rules, inp);
  }

  /** The calls agree on presence wherever a rule tests or redacts it, and on value wherever
      a rule compares it; nothing else about their arguments matters. */
  ghost predicate Indistinguishable(rules: seq<RawRule>, a: EvaluationInput, b: EvaluationInput) {
    && a.tool == b.tool && a.subjectAttrs == b.subjectAttrs
    && (forall raw, k | raw in rules && k in Conditions(raw) && IsArgKey(k) ::
          if Conditions(raw)[k] == Bool(true) then ArgName(k) in a.args <==> ArgName(k) in b.args
          else PyEq(Get(a.args, ArgName(k)), Get(b.args, ArgName(k))))
    && (forall raw, p | raw in rules && p in RedactPaths(raw.action) && IsArgKey(p) ::
          ArgName(p) in a.args <==> ArgName(p) in b.args)
  }

  lemma IndistinguishableSymmetric(rules: seq<RawRule>, a: EvaluationInput, b: EvaluationInput)
    requires Indistinguishable(rules, a, b)
    ensures Indistinguishable(rules, b, a)
  {
    forall raw, k | raw in rules && k in Conditions(raw) && IsArgKey(k) && Conditions(raw)[k] != Bool(true)
      ensures PyEq(Get(b.args, ArgName(k)), Get(a.args, ArgName(k)))
    {
      PyEqSymmetric(Get(a.args, ArgName(k)), Get(b.args, ArgName(k)));
    }
  }

  lemma MatchesAlike(rules: seq<RawRule>, raw: RawRule, a: EvaluationInput, b: EvaluationInput)
    requires Indistinguishable(rules, a, b) && raw in rules && RawMatches(raw, a)
    ensures RawMatches(raw, b)
  {
    forall k | k in Conditions(raw) ensures ConditionHolds(k, Conditions(raw)[k], b) {
      var v := Conditions(raw)[k];
      assert ConditionHolds(k, v, a);
      if IsArgKey(k) && v != Bool(true) && k != "tool" && k != "subject_attr" {
        PyEqSymmetric(Get(a.args, ArgName(k)), Get(b.args, ArgName(k)));
        PyEqTransitive(Get(b.args, ArgName(k)), Get(a.args, ArgName(k)), v);
      }
    }
  }

  lemma {:induction false} PresentAlike(paths: seq<string>, a: map<string, Value>, b: map<string, Value>)
    requires forall p | p in paths && IsArgKey(p) :: ArgName(p) in a <==> ArgName(p) in b
    ensures PresentPaths(paths, a) == PresentPaths(paths, b)
  {
    if paths != [] {
      assert paths[0] in paths && forall p | p in paths[1..] :: p in paths;
      PresentAlike(paths[1..], a, b);
    }
  }

  lemma DecidesAlike(rules: seq<RawRule>, a: EvaluationInput, b: EvaluationInput)
    requires Indistinguishable(rules, a, b)
    ensures forall raw | raw in rules :: RawMatches(raw, a) <==> RawMatches(raw, b)
    ensures forall i: nat :: Decides(rules, a, i) <==> Decides(rules, b, i)
  {
    IndistinguishableSymmetric(rules, a, b);
    forall raw | raw in rules ensures RawMatches(raw, a) <==> RawMatches(raw, b) {
      if RawMatches(raw, a) { MatchesAlike(rules, raw, a, b); }
      if RawMatches(raw, b) { MatchesAlike(rules, raw, b, a); }
    }
    assert forall i: nat | i < |rules| :: rules[i] in rules;
  }

  lemma AnswersAlike(rules: seq<RawRule>, raw: RawRule, a: EvaluationInput, b: EvaluationInput)
    requires Indistinguishable(rules, a, b) && raw in rules
    ensures Answer(raw, a) == Answer(raw, b)
  {
    PresentAlike(RedactPaths(raw.action), a.args, b.args);
  }

  /** The policy cannot tell such calls apart: the whole result is the same. */
  lemma NonInterference(rules: seq<RawRule>, a: EvaluationInput, b: EvaluationInput)
    requires Indistinguishable(rules, a, b)
    ensures Meaning(rules, a) == Meaning(rules, b)
  {
    DecidesAlike(rules, a, b);
    MeaningIsDeclarative(rules, a);
    MeaningIsDeclarative(rules, b);
    if i: nat :| Decides(rules, a, i) {
      AnswersAlike(rules, rules[i], a, b);
    }
  }
}
