/** The decision route: which policy answers, when a fail mode answers instead, and what is
    counted and queued. */
module Decide {
  import opened Values
  import opened Compiler
  import opened Evaluator
  import opened PolicyEdits
  import opened Bundle
  import opened Payload
  import opened PolicyCache
  import OAuth
  import Protocol = TelemetryProtocol
  import Store = TelemetryStore

  datatype FailMode = Open | Closed

  datatype Config = Config(
    tenantId: string,
    multiPolicy: bool,
    failMode: FailMode,
    staleThreshold: int,
    omitPayload: bool,
    subjectHashKey: string,
    tokenTtl: int,
    accepts: (string, string) -> bool)  // the password check: does this secret have this hash?

  datatype Request = Request(
    tool: string,
    args: map<string, Value>,
    subject: Option<string>,
    subjectAttrs: Option<map<string, Value>>,
    agentId: Option<string>,
    policyName: Option<string>)

  /** The parts the reason text of a response is formatted from. */
  datatype ResponseReason = NoPolicyCached | PolicyStale(age: Option<int>, mode: FailMode) | Because(reason: Reason)

  datatype Response = Response(
    verdict: string,
    ruleId: string,
    reason: ResponseReason,
    redactions: seq<string>,
    matchedFrameworkTags: seq<string>,
    policyId: Option<string>,
    policyVersion: Option<string>,
    stale: bool)

  datatype Outcome = Answered(response: Response) | PolicyNotFound | NotWarm

  datatype StaleStatus = StaleStatus(isStale: bool, age: Option<int>)

  /** A cache that never succeeded is stale; otherwise one older than the threshold is. */
  function Staleness(lastSuccess: Option<int>, now: int, threshold: int): StaleStatus {
    match lastSuccess
    case None => StaleStatus(true, None)
    case Some(last) => StaleStatus(now - last > threshold, Some(now - last))
  }

  function FailModeVerdict(mode: FailMode): (string, string) {
    if mode.Open? then ("allow", "edge.policy_stale.fail_open") else ("deny", "edge.policy_stale.fail_closed")
  }

  /** The name the request routes to: its own when multi-policy is on and it has one, else the
      primary. */
  function RoutedName(cfg: Config, primary: Option<string>, req: Request): Option<string> {
    if ByName(cfg, req) then req.policyName else primary
  }

  predicate ByName(cfg: Config, req: Request) { cfg.multiPolicy && req.policyName.Some? && req.policyName.value != "" }

  function InputOf(req: Request): EvaluationInput {
    EvaluationInput(req.tool, req.args, req.subject, req.subjectAttrs)
  }

  /** The policy that would answer. */
  function Routed(cfg: Config, m: Memory, req: Request): Option<CompiledPolicy> {
    var name := RoutedName(cfg, m.primary, req);
    if name.Some? && name.value in m.snapshots then Some(m.snapshots[name.value].compiled) else None
  }

  /** The answer, and the evaluation it comes from when there is one. */
  function Decision(cfg: Config, m: Memory, now: int, req: Request): (Outcome, Option<EvaluationResult>) {
    var compiled := Routed(cfg, m, req);
    if compiled.None? then
      if ByName(cfg, req) then (PolicyNotFound, None)
      else if cfg.failMode.Closed? then (NotWarm, None)
      else
        var (verdict, rule) := FailModeVerdict(cfg.failMode);
        (Answered(Response(verdict, rule, NoPolicyCached, [], [], None, None, true)), None)
    else
      var stale := Staleness(m.lastSuccess, now, cfg.staleThreshold);
      if stale.isStale then
        var (verdict, rule) := FailModeVerdict(cfg.failMode);
        (Answered(Response(verdict, rule, PolicyStale(stale.age, cfg.failMode), [], [],
                           Some(compiled.value.policyId), Some(compiled.value.version), true)), None)
      else
        var r := Evaluate(compiled.value, InputOf(req));
        (Answered(Response(r.verdict, r.ruleId, Because(r.reason), r.redactions, r.matchedFrameworkTags,
                           Some(compiled.value.policyId), Some(compiled.value.version), false)), Some(r))
  }

  /** When each kind of answer is given, both ways: a policy is evaluated exactly when one is
      routed to and the cache was refreshed within the threshold; a fail mode answers, allow
      only in open mode, exactly when the routed policy is stale, or in open mode when there
      is none to route to by default; an unknown name and a cold closed cache are errors. A
      name counts only with multi-policy on, and an empty one never does. */
  lemma DecisionCases(cfg: Config, m: Memory, now: int, req: Request)
    ensures var o := Decision(cfg, m, now, req).0;
            var named := cfg.multiPolicy && req.policyName.Some? && req.policyName.value != "";
            var name := if named then req.policyName else m.primary;
            var routed := name.Some? && name.value in m.snapshots;
            var recent := m.lastSuccess.Some? && now - m.lastSuccess.value <= cfg.staleThreshold;
            && (o.PolicyNotFound? <==> named && !routed)
            && (o.NotWarm? <==> !named && !routed && cfg.failMode.Closed?)
            && (o.Answered? && !o.response.stale <==> routed && recent)
            && (o.Answered? && o.response.stale <==>
                  (routed && !recent) || (!routed && !named && cfg.failMode.Open?))
            && (o.Answered? && o.response.stale ==>
                  && o.response.verdict == (if cfg.failMode.Open? then "allow" else "deny")
                  && o.response.ruleId == "edge.policy_stale.fail_" + (if cfg.failMode.Open? then "open" else "closed")
                  && o.response.redactions == [] && o.response.matchedFrameworkTags == []
                  && (o.response.policyId.Some? <==> routed)
                  && o.response.reason ==
                     (if !routed then NoPolicyCached
                      else PolicyStale(if m.lastSuccess.Some? then Some(now - m.lastSuccess.value) else None, cfg.failMode)))
  {
    hide Evaluate;
  }

  /** The decision is this policy's: its id and version, and when it is fresh, its evaluation of
      the request. */
  ghost predicate ComesFrom(compiled: CompiledPolicy, cfg: Config, m: Memory, now: int, req: Request) {
    var (o, r) := Decision(cfg, m, now, req);
    && o.Answered? && o.response.policyId == Some(compiled.policyId) && o.response.policyVersion == Some(compiled.version)
    && (r.Some? <==> m.lastSuccess.Some? && now - m.lastSuccess.value <= cfg.staleThreshold)
    && (r.Some? ==> r.value == Evaluate(compiled, EvaluationInput(req.tool, req.args, req.subject, req.subjectAttrs)))
  }

  /** No policy: an error in closed mode, an allow without a policy in open mode. */
  ghost predicate ComesFromNothing(cfg: Config, m: Memory, now: int, req: Request) {
    var (o, r) := Decision(cfg, m, now, req);
    && r.None?
    && (if cfg.failMode.Closed? then o == NotWarm
        else o == Answered(Response("allow", "edge.policy_stale.fail_open", NoPolicyCached, [], [], None, None, true)))
  }

  /** With the flag off, or without a name or with an empty one, a request is decided as if it had
      no name: by the primary, or without a policy when there is none; never with "not found". */
  lemma UnnamedGoesToPrimary(cfg: Config, m: Memory, now: int, req: Request)
    requires !cfg.multiPolicy || req.policyName == None || req.policyName == Some("")
    ensures Decision(cfg, m, now, req) == Decision(cfg, m, now, req.(policyName := None))
    ensures Decision(cfg, m, now, req).0 != PolicyNotFound
    ensures if m.primary.Some? && m.primary.value in m.snapshots then
              ComesFrom(m.snapshots[m.primary.value].compiled, cfg, m, now, req)
            else ComesFromNothing(cfg, m, now, req)
  {
    hide Evaluate;
  }

  /** With the flag on, a name goes to the policy of that name, and is "not found" exactly when
      there is none. */
  lemma NamedGoesToItsPolicy(cfg: Config, m: Memory, now: int, req: Request)
    requires cfg.multiPolicy && req.policyName.Some? && req.policyName.value != ""
    ensures Decision(cfg, m, now, req).0 == PolicyNotFound <==> req.policyName.value !in m.snapshots
    ensures req.policyName.value in m.snapshots ==>
              ComesFrom(m.snapshots[req.policyName.value].compiled, cfg, m, now, req)
  {
    hide Evaluate;
  }

  /** The token's agent id, unless it is missing or empty. */
  function AgentOf(claims: OAuth.AgentTokenClaims, req: Request): Option<string> {
    if claims.agentId.Some? && claims.agentId.value != "" then claims.agentId else req.agentId
  }

  /** The audit event of an evaluated decision. */
  function EventOf(cfg: Config, claims: OAuth.AgentTokenClaims, req: Request, policyId: string, r: EvaluationResult): AuditEvent {
    BuildAuditEvent(cfg.tenantId, AgentOf(claims, req),
                    if cfg.omitPayload then HashSubject(req.subject, cfg.subjectHashKey) else RawSubject(req.subject),
                    policyId, r, req.tool, if cfg.omitPayload then map[] else req.args)
  }

  /** The audit queue after a decision: an event is offered exactly when a policy was evaluated. */
  ghost function Queued(cfg: Config, m: Memory, now: int, claims: OAuth.AgentTokenClaims, req: Request,
                        q: Protocol.State): Protocol.State {
    var (o, r) := Decision(cfg, m, now, req);
    if r.None? then q
    else Protocol.Exec(q, Protocol.Enqueue(EventOf(cfg, claims, req, o.response.policyId.value, r.value)))
  }

  /** The queue counts one attempt for an evaluated decision, and none for any other answer. */
  lemma QueuedIsCounted(cfg: Config, m: Memory, now: int, claims: OAuth.AgentTokenClaims, req: Request,
                        q: Protocol.State)
    requires Protocol.Reachable(q)
    ensures Protocol.Reachable(Queued(cfg, m, now, claims, req, q))
    ensures Queued(cfg, m, now, claims, req, q).attempts ==
            q.attempts + if Evaluated(Decision(cfg, m, now, req).0) then 1 else 0
  {
    hide Protocol.Reachable, EventOf, Evaluate;
    var (o, r) := Decision(cfg, m, now, req);
    if r.Some? {
      Protocol.ReachableStep(q, Protocol.Enqueue(EventOf(cfg, claims, req, o.response.policyId.value, r.value)));
    }
  }

  /** The name of an agent, empty when it is missing. */
  function NameOf(agent: Option<string>): string { if agent.Some? then agent.value else "" }

  /** The event says about a decision what the caller was told, and who asked: the token's
      agent, or the body's when the token names none. */
  ghost predicate Reports(e: AuditEvent, cfg: Config, claims: OAuth.AgentTokenClaims, req: Request, r: Response) {
    && e.customerId == CustomerId(cfg.tenantId) && e.actionType == req.tool
    && r.policyId == Some(e.policyId) && r.reason == Because(e.reason)
    && e.decision == r.verdict && e.ruleId == r.ruleId
    && e.redactions == r.redactions && e.frameworkTags == r.matchedFrameworkTags
    && e.agentId == (if NameOf(claims.agentId) != "" then NameOf(claims.agentId) else NameOf(req.agentId))
    && e.actionPayload == (if cfg.omitPayload then map[] else req.args)
    && (var subject := if req.subject.Some? then req.subject.value else "";
        e.subjectId == if subject == "" || (cfg.omitPayload && cfg.subjectHashKey == "") then Nobody
                       else if cfg.omitPayload then Pseudonym(cfg.subjectHashKey, subject)
                       else Raw(subject))
  }

  /** An audit event exists exactly when a policy is routed to and the cache was refreshed within
      the threshold; and it never disagrees with the answer. */
  lemma EventReportsAnswer(cfg: Config, m: Memory, now: int, claims: OAuth.AgentTokenClaims, req: Request)
    ensures var (o, r) := Decision(cfg, m, now, req);
            var named := cfg.multiPolicy && req.policyName.Some? && req.policyName.value != "";
            var name := if named then req.policyName else m.primary;
            && (r.Some? <==> o.Answered? && !o.response.stale)
            && (r.Some? <==> name.Some? && name.value in m.snapshots &&
                             m.lastSuccess.Some? && now - m.lastSuccess.value <= cfg.staleThreshold)
            && (r.Some? ==> o.response.policyId.Some? &&
                            Reports(EventOf(cfg, claims, req, o.response.policyId.value, r.value), cfg, claims, req, o.response))
  {
    hide Evaluate;
    DecisionCases(cfg, m, now, req);
  }

  /** An input on which a bypass leaves no audit record: in open mode, a request routed to a
      policy that has gone stale is allowed and the queue is not even offered an event. */
  lemma BypassIsNotAudited(cfg: Config, m: Memory, now: int, claims: OAuth.AgentTokenClaims, req: Request, q: Protocol.State)
    requires cfg.failMode.Open? && Routed(cfg, m, req).Some?
    requires m.lastSuccess.Some? && now - m.lastSuccess.value > cfg.staleThreshold
    ensures var o := Decision(cfg, m, now, req).0;
            o.Answered? && o.response.verdict == "allow" && Queued(cfg, m, now, claims, req, q) == q
  {
  }

  /** An input on which the audited agent is whoever the body says: a token of a client that has
      no agent of its own. */
  lemma BodyNamesTheAgent(cfg: Config, claims: OAuth.AgentTokenClaims, req: Request, policyId: string, r: EvaluationResult)
    requires claims.agentId == None && req.agentId == Some("mallory")
    ensures EventOf(cfg, claims, req, policyId, r).agentId == "mallory"
  {
  }

  lemma EvaluateBundle(policy: EdgePolicy, inp: EvaluationInput)
    ensures Evaluate(CompileBundle(policy), inp) == Meaning(policy.bundle.rules, inp)
  {
    var b := policy.bundle;
    EvaluateCompiled(policy.id, b.name, b.version, b.rules, b.frameworkTags, inp);
  }

  /** Requests the policy cannot tell apart get the same answer, and with payload-omit on the
      same audit event. */
  lemma DecisionNonInterference(cfg: Config, m: Memory, now: int, claims: OAuth.AgentTokenClaims,
                                a: Request, b: Request, policy: EdgePolicy)
    requires Routed(cfg, m, a) == Some(CompileBundle(policy))
    requires b == a.(args := b.args) && Indistinguishable(policy.bundle.rules, InputOf(a), InputOf(b))
    ensures Decision(cfg, m, now, a) == Decision(cfg, m, now, b)
    ensures Decision(cfg, m, now, a).1.Some? && cfg.omitPayload ==>
              EventOf(cfg, claims, a, policy.id, Decision(cfg, m, now, a).1.value) ==
              EventOf(cfg, claims, b, policy.id, Decision(cfg, m, now, b).1.value)
  {
    NonInterference(policy.bundle.rules, InputOf(a), InputOf(b));
    EvaluateBundle(policy, InputOf(a));
    EvaluateBundle(policy, InputOf(b));
    assert Routed(cfg, m, b) == Routed(cfg, m, a) && ByName(cfg, b) == ByName(cfg, a);
  }

  // ---------------------------------------------------------------------------
  // The counters
  // ---------------------------------------------------------------------------

  predicate Evaluated(o: Outcome) { o.Answered? && !o.response.stale }

  predicate ByFailMode(o: Outcome) { o.Answered? && o.response.stale }

  function CountEvaluated(outcomes: seq<Outcome>): nat {
    if outcomes == [] then 0
    else CountEvaluated(outcomes[..|outcomes| - 1]) + if Evaluated(outcomes[|outcomes| - 1]) then 1 else 0
  }

  function CountByFailMode(outcomes: seq<Outcome>): nat {
    if outcomes == [] then 0
    else CountByFailMode(outcomes[..|outcomes| - 1]) + if ByFailMode(outcomes[|outcomes| - 1]) then 1 else 0
  }

  /** One verdict per answer. */
  function Verdicts(outcomes: seq<Outcome>): multiset<string> {
    if outcomes == [] then multiset{}
    else
      var o := outcomes[|outcomes| - 1];
      Verdicts(outcomes[..|outcomes| - 1]) + if o.Answered? then multiset{o.response.verdict} else multiset{}
  }

  /** The verdict counters add up to the evaluated decisions and the fail-mode answers. */
  lemma {:induction false} VerdictsAddUp(outcomes: seq<Outcome>)
    ensures |Verdicts(outcomes)| == CountEvaluated(outcomes) + CountByFailMode(outcomes)
  {
    if outcomes != [] {
      VerdictsAddUp(outcomes[..|outcomes| - 1]);
    }
  }

  /** The counters, labelled by verdict where the source labels them. */
  datatype Counters = Counters(cacheHits: nat, decisions: multiset<string>, notFound: nat)

  const FRESH: Counters := Counters(0, multiset{}, 0)

  function Counted(c: Counters, o: Outcome): Counters {
    match o
    case PolicyNotFound => c.(notFound := c.notFound + 1)
    case NotWarm => c
    case Answered(r) =>
      c.(decisions := c.decisions + multiset{r.verdict}, cacheHits := c.cacheHits + if r.stale then 0 else 1)
  }

  lemma CountsSnoc(outcomes: seq<Outcome>, o: Outcome)
    ensures CountEvaluated(outcomes + [o]) == CountEvaluated(outcomes) + if Evaluated(o) then 1 else 0
    ensures CountByFailMode(outcomes + [o]) == CountByFailMode(outcomes) + if ByFailMode(o) then 1 else 0
    ensures Verdicts(outcomes + [o]) == Verdicts(outcomes) + if o.Answered? then multiset{o.response.verdict} else multiset{}
  {
    assert (outcomes + [o])[..|outcomes|] == outcomes;
  }

  /** The process as the route sees it: cache, audit queue and counters. */
  class Edge {
    const cfg: Config
    const cache: PolicyCache
    const store: Store.TelemetryStore
    var cacheHits: nat
    var decisions: multiset<string>
    var notFound: nat
    ghost var outcomes: seq<Outcome>

    /** Every evaluated decision was one cache hit and one attempt to queue an audit event. */
    ghost predicate Valid()
      reads this, cache, store
    {
      && cache.Valid() && store.Recorded()
      && cacheHits == CountEvaluated(outcomes) == store.state.attempts
      && decisions == Verdicts(outcomes)
    }

    constructor (cfg: Config, cache: PolicyCache, store: Store.TelemetryStore)
      requires cache.Valid() && store.Recorded() && store.state.attempts == 0
      ensures Valid() && outcomes == [] && this.cfg == cfg && this.cache == cache && this.store == store
    {
      this.cfg, this.cache, this.store := cfg, cache, store;
      cacheHits, decisions, notFound, outcomes := 0, multiset{}, 0, [];
    }

    /** The route behind the token gate. An audit event is offered to the queue exactly when a
        policy was evaluated; whether the queue takes it changes nothing else. */
    method Decide(claims: OAuth.AgentTokenClaims, req: Request, now: int) returns (o: Outcome)
      requires Valid()
      modifies this, store
      ensures Valid() && o == Decision(cfg, cache.Value(), now, req).0
      ensures outcomes == old(outcomes) + [o]
      ensures Counters(cacheHits, decisions, notFound) == Counted(old(Counters(cacheHits, decisions, notFound)), o)
      ensures cacheHits == old(cacheHits) + if o.Answered? && !o.response.stale then 1 else 0
      ensures decisions == old(decisions) + if o.Answered? then multiset{o.response.verdict} else multiset{}
      ensures notFound == old(notFound) + if o == PolicyNotFound then 1 else 0
      ensures store.state == Queued(cfg, cache.Value(), now, claims, req, old(store.state))
    {
      hide Coherent, Protocol.Reachable, Decision, Queued, CountEvaluated, CountByFailMode, Verdicts;
      QueuedIsCounted(cfg, cache.Value(), now, claims, req, store.state);
      o := Answer(claims, req, now);
      CountsSnoc(outcomes, o);
      outcomes := outcomes + [o];
    }

    /** The body of the route, without the record of outcomes. */
    method Answer(claims: OAuth.AgentTokenClaims, req: Request, now: int) returns (o: Outcome)
      requires cache.Valid() && store.Recorded()
      modifies this`cacheHits, this`decisions, this`notFound, store
      ensures store.Recorded() && o == Decision(cfg, cache.Value(), now, req).0
      ensures Counters(cacheHits, decisions, notFound) == Counted(old(Counters(cacheHits, decisions, notFound)), o)
      ensures store.state == Queued(cfg, cache.Value(), now, claims, req, old(store.state))
    {
      hide Evaluate, Coherent, Protocol.Reachable, Protocol.Exec, EventOf, Store.TelemetryStore.Recorded, InputOf;
      var compiled;
      if cfg.multiPolicy && req.policyName.Some? && req.policyName.value != "" {
        compiled := cache.CompiledByName(req.policyName.value);
        if compiled.None? {
          notFound := notFound + 1;
          return PolicyNotFound;
        }
      } else {
        compiled := cache.PrimaryCompiled();
      }
      if compiled.None? {
        if cfg.failMode.Closed? {
          return NotWarm;
        }
        var (verdict, rule) := FailModeVerdict(cfg.failMode);
        decisions := decisions + multiset{verdict};
        return Answered(Response(verdict, rule, NoPolicyCached, [], [], None, None, true));
      }
      var policy := compiled.value;
      assert Routed(cfg, cache.Value(), req) == Some(policy);
      var stale := Staleness(cache.lastSuccess, now, cfg.staleThreshold);
      if stale.isStale {
        var (verdict, rule) := FailModeVerdict(cfg.failMode);
        decisions := decisions + multiset{verdict};
        return Answered(Response(verdict, rule, PolicyStale(stale.age, cfg.failMode), [], [],
                                 Some(policy.policyId), Some(policy.version), true));
      }
      var r := EvaluateAndQueue(policy, claims, req);
      o := Answered(Response(r.verdict, r.ruleId, Because(r.reason), r.redactions, r.matchedFrameworkTags,
                             Some(policy.policyId), Some(policy.version), false));
    }

    /** The evaluated case: count the hit and the verdict, and offer the audit event. */
    method EvaluateAndQueue(policy: CompiledPolicy, claims: OAuth.AgentTokenClaims, req: Request)
      returns (r: EvaluationResult)
      requires store.Recorded()
      modifies this`cacheHits, this`decisions, store
      ensures store.Recorded() && r == Evaluate(policy, InputOf(req))
      ensures cacheHits == old(cacheHits) + 1 && decisions == old(decisions) + multiset{r.verdict}
      ensures store.state == Protocol.Exec(old(store.state), Protocol.Enqueue(EventOf(cfg, claims, req, policy.policyId, r)))
    {
      hide Evaluate, Protocol.Reachable, Protocol.Exec, BuildAuditEvent;
      cacheHits := cacheHits + 1;
      r := Evaluate(policy, InputOf(req));
      decisions := decisions + multiset{r.verdict};
      var forwardedArgs := if cfg.omitPayload then map[] else req.args;
      var forwardedSubject := if cfg.omitPayload then HashSubject(req.subject, cfg.subjectHashKey) else RawSubject(req.subject);
      var accepted := store.Enqueue(
        BuildAuditEvent(cfg.tenantId, AgentOf(claims, req), forwardedSubject, policy.policyId, r, req.tool, forwardedArgs));
    }
  }
}
