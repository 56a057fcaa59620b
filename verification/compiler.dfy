/** Rule compilation: raw rules are parsed one by one, then stably sorted. */
module Compiler {
  import opened Values
  import opened Text
  import opened Ordering

  /** A rule as it comes off the wire; the optional keys may be absent. */
  datatype RawRule = RawRule(
    ruleId: string,
    conditions: Option<map<string, Value>>,
    action: string,
    frameworkTags: Option<seq<string>>,
    priority: Option<int>)

  datatype MatchPattern = MatchPattern(
    tool: Option<string>,
    argKeysPresent: set<string>,
    argEquals: map<string, Value>,
    subjectAttr: Option<string>)

  datatype CompiledRule = CompiledRule(
    ruleId: string,
    pattern: MatchPattern,
    action: string,
    redactPaths: seq<string>,
    frameworkTags: seq<string>,
    priority: int)

  datatype CompiledPolicy = CompiledPolicy(
    policyId: string,
    name: string,
    version: string,
    rules: seq<CompiledRule>,
    frameworkTags: seq<string>)

  const ARGS: string := "args."
  const DEFAULT_PRIORITY: int := 100

  predicate IsArgKey(k: string) { HasPrefix(k, ARGS) }

  /** k.removeprefix("args.") */
  function ArgName(k: string): (name: string)
    ensures IsArgKey(k) ==> k == ARGS + name
  {
    if IsArgKey(k) then k[|ARGS|..] else k
  }

  function Conditions(raw: RawRule): map<string, Value> {
    if raw.conditions.Some? then raw.conditions.value else map[]
  }

  /** The arguments these keys require to be present, and those they compare. */
  ghost function PresenceTests(conditions: map<string, Value>, keys: set<string>): set<string>
    requires keys <= conditions.Keys
  {
    set k | k in keys && IsArgKey(k) && conditions[k] == Bool(true) :: ArgName(k)
  }

  ghost function EqualityTests(conditions: map<string, Value>, keys: set<string>): map<string, Value>
    requires keys <= conditions.Keys
  {
    map k | k in keys && IsArgKey(k) && conditions[k] != Bool(true) :: ArgName(k) := conditions[k]
  }

  lemma NoKeys(conditions: map<string, Value>)
    ensures PresenceTests(conditions, {}) == {} && EqualityTests(conditions, {}) == map[]
  {
  }

  lemma OneMoreKey(conditions: map<string, Value>, keys: set<string>, k: string)
    requires keys <= conditions.Keys && k in conditions && k !in keys
    ensures var test := IsArgKey(k) && conditions[k] == Bool(true);
            PresenceTests(conditions, keys + {k}) == PresenceTests(conditions, keys) + if test then {ArgName(k)} else {}
    ensures var test := IsArgKey(k) && conditions[k] != Bool(true);
            EqualityTests(conditions, keys + {k}) ==
            if test then EqualityTests(conditions, keys)[ArgName(k) := conditions[k]] else EqualityTests(conditions, keys)
  {
  }

  /** The pattern of a `when` table, key class by key class. */
  ghost function PatternOf(conditions: map<string, Value>): MatchPattern {
    MatchPattern(
      ToolOf(conditions),
      PresenceTests(conditions, conditions.Keys),
      EqualityTests(conditions, conditions.Keys),
      SubjectAttrOf(conditions))
  }

  /** An absent tool, None and "*" all mean any tool. */
  function ToolOf(conditions: map<string, Value>): Option<string> {
    var tool := Get(conditions, "tool");
    if tool == Null || tool == Str("*") then None else Some(tool.Text())
  }

  /** A falsy subject attribute is no condition at all. */
  function SubjectAttrOf(conditions: map<string, Value>): Option<string> {
    var attr := Get(conditions, "subject_attr");
    if attr.Truthy() then Some(attr.Text()) else None
  }

  /** The word before the first colon: the action itself. */
  function BaseAction(action: string): string { Before(action, ':') }

  /** The action is this verb, alone or with something after a colon. */
  predicate IsVerb(action: string, verb: string) { action == verb || verb + ":" <= action }

  lemma VerbIsBase(action: string, verb: string)
    requires ':' !in verb
    ensures BaseAction(action) == verb <==> IsVerb(action, verb)
  {
    BeforeExactly(action, ':', verb);
  }

  /** The trimmed, non-empty pieces of a comma-separated list. */
  function TrimmedPieces(pieces: seq<string>): seq<string> {
    if pieces == [] then []
    else (if Strip(pieces[0]) != "" then [Strip(pieces[0])] else []) + TrimmedPieces(pieces[1..])
  }

  function RedactPaths(action: string): seq<string> {
    if BaseAction(action) == "redact" then TrimmedPieces(Split(After(action, ':'), ',')) else []
  }

  function Priority(raw: RawRule): int {
    if raw.priority.Some? then raw.priority.value else DEFAULT_PRIORITY
  }

  function Tags(raw: RawRule): seq<string> {
    if raw.frameworkTags.Some? then raw.frameworkTags.value else []
  }

  ghost function ParseRule(raw: RawRule): CompiledRule {
    CompiledRule(raw.ruleId, PatternOf(Conditions(raw)), raw.action, RedactPaths(raw.action),
                 Tags(raw), Priority(raw))
  }

  ghost function ParseRules(rules: seq<RawRule>): seq<CompiledRule> {
    seq(|rules|, i requires 0 <= i < |rules| => ParseRule(rules[i]))
  }

  /** deny < redact < allow < anything else */
  function ActionRank(action: string): nat {
    match BaseAction(action)
    case "deny" => 0
    case "redact" => 1
    case "allow" => 2
    case _ => 3
  }

  /** Lexicographic order of the sort key (priority, action rank). */
  predicate KeyLe(p: int, rank: nat, q: int, sank: nat) { p < q || (p == q && rank <= sank) }

  predicate RuleLe(r: CompiledRule, s: CompiledRule) {
    KeyLe(r.priority, ActionRank(r.action), s.priority, ActionRank(s.action))
  }

  ghost function Compile(policyId: string, name: string, version: string,
                         rules: seq<RawRule>, frameworkTags: seq<string>): CompiledPolicy {
    CompiledPolicy(policyId, name, version, StableSort(ParseRules(rules), RuleLe), frameworkTags)
  }

  /** Splits a `when` table into presence tests and equality tests, one key at a time. */
  method ParseConditions(conditions: map<string, Value>) returns (pattern: MatchPattern)
    ensures pattern == PatternOf(conditions)
  {
    hide PresenceTests, EqualityTests;
    var present: set<string>, equals: map<string, Value> := {}, map[];
    NoKeys(conditions);
    var todo := conditions.Keys;
    ghost var done: set<string> := {};
    while todo != {}
      invariant todo + done == conditions.Keys && todo !! done
      invariant present == PresenceTests(conditions, done) && equals == EqualityTests(conditions, done)
      decreases todo
    {
      var k :| k in todo;
      OneMoreKey(conditions, done, k);
      if IsArgKey(k) {
        if conditions[k] == Bool(true) {
          present := present + {ArgName(k)};
        } else {
          equals := equals[ArgName(k) := conditions[k]];
        }
      }
      todo := todo - {k};
      done := done + {k};
    }
    assert done == conditions.Keys;
    pattern := MatchPattern(ToolOf(conditions), present, equals, SubjectAttrOf(conditions));
  }

  /** Parses every rule in order, then sorts the list by (priority, action rank), stably. */
  method CompilePolicy(policyId: string, name: string, version: string,
                       rules: seq<RawRule>, frameworkTags: Option<seq<string>>)
    returns (policy: CompiledPolicy)
    ensures policy == Compile(policyId, name, version, rules,
                              if frameworkTags.Some? then frameworkTags.value else [])
    ensures policy.policyId == policyId && policy.name == name && policy.version == version
    ensures policy.frameworkTags == (if frameworkTags.Some? then frameworkTags.value else [])
  {
    hide PatternOf, RedactPaths, StableSort, Conditions;
    var compiled: seq<CompiledRule> := [];
    for i := 0 to |rules|
      invariant compiled == ParseRules(rules)[..i]
    {
      var raw := rules[i];
      var pattern := ParseConditions(Conditions(raw));
      compiled := compiled + [CompiledRule(raw.ruleId, pattern, raw.action, RedactPaths(raw.action),
                                           Tags(raw), Priority(raw))];
    }
    assert compiled == ParseRules(rules);
    compiled := StableSort(compiled, RuleLe);
    policy := CompiledPolicy(policyId, name, version, compiled,
                             if frameworkTags.Some? then frameworkTags.value else []);
  }

  /** A redact path list written out with any whitespace around each path. */
  ghost function Printed(paths: seq<string>, pads: seq<(string, string)>): seq<string>
    requires |paths| == |pads|
  {
    seq(|paths|, i requires 0 <= i < |paths| => pads[i].0 + paths[i] + pads[i].1)
  }

  /** The non-empty ones, in order. */
  function NonEmpty(paths: seq<string>): seq<string> { Filter(paths, (p: string) => p != "") }

  lemma {:induction false} TrimmedPiecesOfPrinted(paths: seq<string>, pads: seq<(string, string)>)
    requires |paths| == |pads|
    requires forall p | p in paths :: Trimmed(p)
    requires forall pad | pad in pads :: Blank(pad.0) && Blank(pad.1)
    ensures TrimmedPieces(Printed(paths, pads)) == NonEmpty(paths)
  {
    if paths != [] {
      assert paths[0] in paths && pads[0] in pads;
      if paths[0] == "" {
        StripBlank(pads[0].0, pads[0].1);
      } else {
        StripPadded(pads[0].0, paths[0], pads[0].1);
      }
      assert forall p | p in paths[1..] :: p in paths;
      assert forall pad | pad in pads[1..] :: pad in pads;
      TrimmedPiecesOfPrinted(paths[1..], pads[1..]);
      assert Printed(paths, pads)[1..] == Printed(paths[1..], pads[1..]);
    }
  }

  lemma StripBlank(before: string, after: string)
    requires Blank(before) && Blank(after)
    ensures Strip(before + "" + after) == ""
  {
    assert before + "" + after == (before + after) + "";
    LStripPadded(before + after, "");
  }

  /** A redact action whose pieces are paths, or nothing, with any padding names exactly the
      paths, in order: empty and blank pieces are dropped. */
  lemma RedactParses(paths: seq<string>, pads: seq<(string, string)>)
    requires |paths| == |pads| > 0
    requires forall p | p in paths :: Trimmed(p) && ',' !in p
    requires forall pad | pad in pads :: Blank(pad.0) && Blank(pad.1)
    ensures RedactPaths("redact:" + Join(Printed(paths, pads), ",")) == NonEmpty(paths)
  {
    hide TrimmedPieces, Strip, Before, After, NonEmpty;
    var list := Join(Printed(paths, pads), ",");
    assert "redact:" + list == "redact" + [':'] + list;
    BeforeAfter("redact", ':', list);
    forall p | p in Printed(paths, pads) ensures ',' !in p {
      var i :| 0 <= i < |paths| && p == pads[i].0 + paths[i] + pads[i].1;
      assert paths[i] in paths && pads[i] in pads;
    }
    SplitOfJoin(Printed(paths, pads), ',');
    TrimmedPiecesOfPrinted(paths, pads);
  }

  /** Printing a redact action and parsing it gives back the same paths in the same order. */
  lemma RedactRoundTrip(paths: seq<string>, pads: seq<(string, string)>)
    requires |paths| == |pads|
    requires forall p | p in paths :: p != "" && Trimmed(p) && ',' !in p
    requires forall pad | pad in pads :: Blank(pad.0) && Blank(pad.1)
    ensures RedactPaths("redact:" + Join(Printed(paths, pads), ",")) == paths
  {
    hide NonEmpty;
    if paths == [] {
      NothingPrinted();
      assert Printed(paths, pads) == [] && Join(Printed(paths, pads), ",") == "";
    } else {
      RedactParses(paths, pads);
      AllNonEmpty(paths);
    }
  }

  lemma {:induction false} AllNonEmpty(paths: seq<string>)
    requires forall p | p in paths :: p != ""
    ensures NonEmpty(paths) == paths
  {
    if paths != [] {
      assert paths[0] in paths && forall p | p in paths[1..] :: p in paths;
      AllNonEmpty(paths[1..]);
    }
  }

  lemma NothingPrinted()
    ensures RedactPaths("redact:" + "") == []
  {
    assert "redact:" + "" == "redact" + [':'] + "";
    BeforeAfter("redact", ':', "");
    assert Split("", ',') == [""] && Strip("") == "";
    assert TrimmedPieces([""][1..]) == [];
  }

  /** Any other action names no paths, and so does a redact action without a colon. */
  lemma OtherActionsNameNoPaths(action: string)
    requires !("redact:" <= action)
    ensures RedactPaths(action) == []
  {
    VerbIsBase(action, "redact");
    if action == "redact" { NoColonNoPaths(); }
  }

  lemma NoColonNoPaths()
    ensures RedactPaths("redact") == []
  {
    assert "redact"[6..] == "" && After("redact"[6..], ':') == "";
    assert After("redact"[5..], ':') == "" && After("redact"[4..], ':') == "" && After("redact"[3..], ':') == "";
    assert Split("", ',') == [""] && Strip("") == "";
    assert TrimmedPieces([""][1..]) == [];
  }
}
