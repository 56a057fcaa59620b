/** What holds in every run of the edge system: fresh answers, authorized callers, and an audit
    trail that accounts for every decision. */
module EdgeRuns {
  import opened Values
  import opened Text
  import opened Payload
  import opened Compiler
  import opened Evaluator
  import opened Bundle
  import opened PolicyDisk
  import opened PolicyCache
  import opened PolicySync
  import opened Decide
  import opened EdgeSystem
  import OAuth
  import Key = KeyState
  import Protocol = TelemetryProtocol

  /** Position j is the last installation before position i. */
  ghost predicate IsLatestInstall(log: seq<Event>, i: nat, j: nat) {
    && j < i <= |log| && log[j].Installed?
    && forall k | j < k < i :: !log[k].Installed?
  }

  lemma {:induction false} CurrentHasSource(log: seq<Event>, i: nat) returns (j: nat)
    requires i <= |log| && Current(log[..i]) != COLD
    ensures IsLatestInstall(log, i, j) && Current(log[..i]) == MemoryOf(log[j].source)
  {
    hide MemoryOf;
    var front := log[..i];
    assert i == 0 ==> front == [];
    if log[i - 1].Installed? {
      j := i - 1;
    } else {
      assert front[..i - 1] == log[..i - 1];
      j := CurrentHasSource(log, i - 1);
    }
  }

  /** The source provides policy p under this name, and as a whole it counts as refreshed at this
      time: the time of the fetch, or the newest modification time among the loaded files. */
  ghost predicate Provides(source: Source, name: string, p: EdgePolicy, at: int) {
    match source
    case FromSync(c) =>
      && c.Outcome().Fetched? && at == c.now
      && exists k: nat :: IsLastNamed(c.Outcome().value.policies, name, k) && p == c.Outcome().value.policies[k]
    case FromDisk(files) =>
      && Load(files).Some? && at == Load(files).value.lastSuccess
      && name in Load(files).value.snapshots && p == Load(files).value.snapshots[name].policy
  }

  ghost function PrimaryOf(source: Source): Option<string> {
    match source
    case FromSync(c) => if c.Outcome().Fetched? then c.Outcome().value.primary else None
    case FromDisk(files) => if Load(files).Some? then Load(files).value.primary else None
  }

  /** The response is what the unsorted raw rules of p say about the request. */
  ghost predicate Says(p: EdgePolicy, req: Request, r: Response) {
    && r.reason.Because?
    && RulesSay(p.bundle.rules, EvaluationInput(req.tool, req.args, req.subject, req.subjectAttrs),
                EvaluationResult(r.verdict, r.ruleId, r.reason.reason, r.redactions, r.matchedFrameworkTags))
    && r.policyId == Some(p.id) && r.policyVersion == Some(p.bundle.version) && !r.stale
  }

  /** A snapshot of an installed memory is a policy its source provides, compiled. */
  lemma SnapshotHasPolicy(source: Source, name: string) returns (p: EdgePolicy, at: int)
    requires name in MemoryOf(source).snapshots
    ensures Provides(source, name, p, at)
    ensures MemoryOf(source).snapshots[name].policy == p && MemoryOf(source).snapshots[name].compiled == CompileBundle(p)
    ensures MemoryOf(source).lastSuccess == Some(at) && MemoryOf(source).primary == PrimaryOf(source)
  {
    hide Compile;
    p := MemoryOf(source).snapshots[name].policy;
    match source
    case FromSync(c) =>
      at := c.now;
      FetchedPrimaryIsListed(c);
      LastWinsIsLast(c.Outcome().value.policies);
    case FromDisk(files) =>
      at := Load(files).value.lastSuccess;
      RehydratedIsCoherent(files);
  }

  /** An answer that is not stale comes from the routed snapshot of a fresh memory. */
  lemma EvaluatedDecision(cfg: Config, m: Memory, at: int, req: Request, p: EdgePolicy, name: string)
    requires Evaluated(Decision(cfg, m, at, req).0)
    requires RoutedName(cfg, m.primary, req) == Some(name)
    requires name in m.snapshots ==> m.snapshots[name].compiled == CompileBundle(p)
    ensures name in m.snapshots && m.lastSuccess.Some? && at - m.lastSuccess.value <= cfg.staleThreshold
    ensures Says(p, req, Decision(cfg, m, at, req).0.response)
  {
    hide Meaning, RulesSay, Evaluate;
    EvaluateBundle(p, InputOf(req));
    MeaningIsWhatRulesSay(p.bundle.rules, InputOf(req), Meaning(p.bundle.rules, InputOf(req)));
  }

  lemma EvaluatedIsRouted(cfg: Config, m: Memory, at: int, req: Request)
    requires Evaluated(Decision(cfg, m, at, req).0)
    ensures RoutedName(cfg, m.primary, req).Some? && RoutedName(cfg, m.primary, req).value in m.snapshots
    ensures m != COLD
  {
  }

  /** End to end: in any run, an answer that is not marked stale is what the raw rules say, in
      the declarative sense, of the policy that the latest installation before it (the last
      successful fetch, or the startup's files) provides under the routed name; and that
      installation as a whole counts as refreshed no longer than the threshold before the
      answer. How old the answering policy itself may be is the subject of `EdgeAges`. */
  lemma FreshAnswersAreCurrent(cfg: Config, now: int, maxSize: nat, steps: seq<Step>, i: nat)
    returns (j: nat, p: EdgePolicy, at: int)
    requires var log := Run(cfg, Begin(now, maxSize), steps).log;
             i < |log| && log[i].Replied? && Evaluated(log[i].outcome)
    ensures var log := Run(cfg, Begin(now, maxSize), steps).log;
            && IsLatestInstall(log, i, j)
            && RoutedName(cfg, PrimaryOf(log[j].source), log[i].req).Some?
            && Provides(log[j].source, RoutedName(cfg, PrimaryOf(log[j].source), log[i].req).value, p, at)
            && log[i].at - at <= cfg.staleThreshold
            && Says(p, log[i].req, log[i].outcome.response)
  {
    hide Run, Says, Provides, Decision, MemoryOf, PrimaryOf;
    RunKeepsInv(cfg, now, maxSize, steps);
    var log := Run(cfg, Begin(now, maxSize), steps).log;
    var m, req := Current(log[..i]), log[i].req;
    assert log[i].outcome == Decision(cfg, m, log[i].at, req).0;
    EvaluatedIsRouted(cfg, m, log[i].at, req);
    j := CurrentHasSource(log, i);
    p, at := SnapshotHasPolicy(log[j].source, RoutedName(cfg, m.primary, req).value);
    EvaluatedDecision(cfg, m, log[i].at, req, p, RoutedName(cfg, m.primary, req).value);
  }

  /** Fail-safe: under fail mode closed, an allow is only ever given on a fresh policy, and only
      when the rule deciding the request is an allow rule, or a redact rule none of whose
      paths names an argument of the request. */
  lemma ClosedModeAllowsOnlyByRule(cfg: Config, now: int, maxSize: nat, steps: seq<Step>, i: nat)
    returns (j: nat, p: EdgePolicy, at: int, decider: nat)
    requires cfg.failMode.Closed?
    requires var log := Run(cfg, Begin(now, maxSize), steps).log;
             i < |log| && log[i].Replied? && log[i].outcome.Answered? && log[i].outcome.response.verdict == "allow"
    ensures var log := Run(cfg, Begin(now, maxSize), steps).log;
            && !log[i].outcome.response.stale
            && IsLatestInstall(log, i, j)
            && RoutedName(cfg, PrimaryOf(log[j].source), log[i].req).Some?
            && Provides(log[j].source, RoutedName(cfg, PrimaryOf(log[j].source), log[i].req).value, p, at)
            && log[i].at - at <= cfg.staleThreshold
            && Decides(p.bundle.rules, InputOf(log[i].req), decider)
            && Permits(p.bundle.rules[decider], InputOf(log[i].req))
  {
    hide Run, Provides, PrimaryOf, MemoryOf, Meaning, RulesSay, Permits, IsLatestInstall;
    RunKeepsInv(cfg, now, maxSize, steps);
    var log := Run(cfg, Begin(now, maxSize), steps).log;
    ClosedModeDeniesStale(cfg, Current(log[..i]), log[i].at, log[i].req);
    j, p, at := FreshAnswersAreCurrent(cfg, now, maxSize, steps, i);
    var r := log[i].outcome.response;
    MeaningIsWhatRulesSay(p.bundle.rules, InputOf(log[i].req),
      EvaluationResult(r.verdict, r.ruleId, r.reason.reason, r.redactions, r.matchedFrameworkTags));
    AllowOnlyFrom(p.bundle.rules, InputOf(log[i].req));
    decider :| Decides(p.bundle.rules, InputOf(log[i].req), decider) && Permits(p.bundle.rules[decider], InputOf(log[i].req));
  }

  lemma ClosedModeDeniesStale(cfg: Config, m: Memory, at: int, req: Request)
    requires cfg.failMode.Closed?
    ensures var o := Decision(cfg, m, at, req).0; ByFailMode(o) ==> o.response.verdict == "deny"
  {
    hide Evaluate;
  }

  /** Accounting: since the last restart, cache hits are the evaluated decisions, and the
      attempts to queue an audit event, and the events accepted plus those dropped; the
      verdict counters are one verdict per answer and add up to the cache hits and the
      fail-mode answers; and across restarts, every event ever accepted is queued or was
      deleted. */
  lemma AuditAccounting(cfg: Config, now: int, maxSize: nat, steps: seq<Step>)
    ensures var s := Run(cfg, Begin(now, maxSize), steps);
            && s.counters.cacheHits == CountEvaluated(s.outcomes)
            && s.counters.cacheHits == |s.queue.accepted| - s.queue.acceptedBefore + s.queue.dropped
            && s.counters.decisions == Verdicts(s.outcomes)
            && |s.counters.decisions| == s.counters.cacheHits + CountByFailMode(s.outcomes)
            && |s.queue.accepted| == |s.queue.table.rows| + s.queue.deleted
            && (|s.queue.table.rows| <= s.queue.maxSize || |s.queue.table.rows| <= s.queue.sizeAtStart)
  {
    hide Run, Protocol.Reachable;
    RunKeepsInv(cfg, now, maxSize, steps);
    var s := Run(cfg, Begin(now, maxSize), steps);
    Protocol.QueueAccounting(s.queue);
    VerdictsAddUp(s.outcomes);
  }

  /** The audit trail, across crashes and restarts: the events the queue ever accepted report
      evaluated answers, one answer each and in the order they were given, and say what the
      caller was told; the events still queued are the latest of them; and every earlier one
      was in a POST answered 2xx, 400 or 422. */
  lemma AuditTrail(cfg: Config, now: int, maxSize: nat, steps: seq<Step>) returns (keep: seq<nat>)
    ensures var s := Run(cfg, Begin(now, maxSize), steps);
            && IsTrail(cfg, s.log, keep, s.queue.accepted)
            && s.queue.deleted <= |s.queue.accepted|
            && Protocol.Payloads(s.queue.table.rows) == s.queue.accepted[s.queue.deleted..]
            && forall id: nat | 1 <= id <= s.queue.deleted :: Protocol.Delivered(s.queue, id)
  {
    hide Run, Protocol.Reachable, IsTrail;
    RunKeepsInv(cfg, now, maxSize, steps);
    var s := Run(cfg, Begin(now, maxSize), steps);
    keep :| IsTrail(cfg, s.log, keep, s.queue.accepted);
    Protocol.QueueAccounting(s.queue);
    Protocol.QueueIsUndeliveredSuffix(s.queue);
  }

  // ---------------------------------------------------------------------------
  // Where the answering policy comes from
  // ---------------------------------------------------------------------------

  /** Whatever is in memory at any moment was fetched before, each snapshot at its own time. */
  lemma MemoryWasFetched(cfg: Config, log: seq<Event>, i: nat, name: string)
    requires LogOk(cfg, log) && i <= |log| && name in Current(log[..i]).snapshots
    ensures var snap := Current(log[..i]).snapshots[name]; WasFetched(log[..i], snap.policy, snap.refreshedAt)
  {
    hide Decision, Backs, Load;
    var j := CurrentHasSource(log, i);
    var snap := Current(log[..i]).snapshots[name];
    assert EventOk(cfg, log[..j], log[j]);
    match log[j].source
    case FromDisk(files) => WasFetchedStays(log[..j], log[..i], snap.policy, snap.refreshedAt);
    case FromSync(c) =>
      LastWinsIsLast(c.Outcome().value.policies);
      assert log[..i][j] == log[j] && IsFetchOf(log[j], snap.policy, snap.refreshedAt);
  }

  /** The snapshot that answers a request. */
  ghost predicate AnswersBy(cfg: Config, m: Memory, req: Request, snap: Snapshot) {
    var name := RoutedName(cfg, m.primary, req);
    name.Some? && name.value in m.snapshots && snap == m.snapshots[name.value]
  }

  /** From an empty directory, through any syncs, cut persists, crashes and restarts: the policy
      behind an answer that is not stale was returned, as it is, by an earlier fetch, at the
      time the snapshot says. */
  lemma AnsweringPolicyWasFetched(cfg: Config, now: int, maxSize: nat, steps: seq<Step>, i: nat)
    returns (snap: Snapshot, f: nat)
    requires var log := Run(cfg, Begin(now, maxSize), steps).log;
             i < |log| && log[i].Replied? && Evaluated(log[i].outcome)
    ensures var log := Run(cfg, Begin(now, maxSize), steps).log;
            && f < i && IsFetchOf(log[f], snap.policy, snap.refreshedAt)
            && AnswersBy(cfg, Current(log[..i]), log[i].req, snap)
            && Says(snap.policy, log[i].req, log[i].outcome.response)
  {
    hide Run, Inv, Says, Decision, LogOk, MemoryOf, IsFetchOf;
    RunKeepsInv(cfg, now, maxSize, steps);
    var s := Run(cfg, Begin(now, maxSize), steps);
    InvExplainsLog(cfg, s);
    var m, req := Current(s.log[..i]), s.log[i].req;
    ReplyIsDecision(cfg, s.log, i);
    EvaluatedIsRouted(cfg, m, s.log[i].at, req);
    var name := RoutedName(cfg, m.primary, req).value;
    var j := CurrentHasSource(s.log, i);
    var p, at := SnapshotHasPolicy(s.log[j].source, name);
    EvaluatedDecision(cfg, m, s.log[i].at, req, p, name);
    snap := m.snapshots[name];
    MemoryWasFetched(cfg, s.log, i, name);
    var e :| e in s.log[..i] && IsFetchOf(e, snap.policy, snap.refreshedAt);
    f :| f < i && s.log[..i][f] == e;
  }

  lemma ReplyIsDecision(cfg: Config, log: seq<Event>, i: nat)
    requires LogOk(cfg, log) && i < |log|
    ensures log[i].Replied? ==> log[i].outcome == Decision(cfg, Current(log[..i]), log[i].at, log[i].req).0
  {
    hide Decision;
    assert EventOk(cfg, log[..i], log[i]);
  }

  // ---------------------------------------------------------------------------
  // Who is answered, and who is named
  // ---------------------------------------------------------------------------

  /** From policy to token to decision: in any run, across restarts and key rotations, an answer
      is only ever given to the bearer of a token that was minted earlier, less than its lifetime
      ago; to somebody who presented the client's id and a secret that passes the check against
      the client's hash, and asked for govern:enforce; and the client was then listed, with
      govern:enforce among the scopes it may have, by the primary policy of the latest
      installation. */
  lemma AnswersAreAuthorized(cfg: Config, now: int, maxSize: nat, steps: seq<Step>, i: nat)
    returns (j: nat, l: nat, p: EdgePolicy, at: int)
    requires var log := Run(cfg, Begin(now, maxSize), steps).log; i < |log| && log[i].Replied?
    ensures var log := Run(cfg, Begin(now, maxSize), steps).log;
            && j < i && Backs(cfg, log[j], log[i].token, log[i].claims, log[i].at)
            && log[j].form.clientId == log[j].client.clientId
            && cfg.accepts(log[j].form.secret, log[j].client.clientSecretHash)
            && "govern:enforce" in Words(log[j].form.scope) && "govern:enforce" in log[j].client.allowedScopes
            && IsLatestInstall(log, j, l) && PrimaryOf(log[l].source).Some?
            && Provides(log[l].source, PrimaryOf(log[l].source).value, p, at)
            && OAuth.FindAuthorizedClient(log[j].form.clientId, p.authorizedClients) == Some(log[j].client)
  {
    hide Run, Inv, LogOk, Provides, MemoryOf, PrimaryOf, Backs;
    RunKeepsInv(cfg, now, maxSize, steps);
    var s := Run(cfg, Begin(now, maxSize), steps);
    InvExplainsLog(cfg, s);
    j := ReplyHasMint(cfg, s.log, i);
    var m := Current(s.log[..j]);
    l := CurrentHasSource(s.log, j);
    p, at := SnapshotHasPolicy(s.log[l].source, m.primary.value);
  }

  lemma InvExplainsLog(cfg: Config, s: System)
    requires Inv(cfg, s)
    ensures LogOk(cfg, s.log)
  {
  }

  lemma ReplyHasMint(cfg: Config, log: seq<Event>, i: nat) returns (j: nat)
    requires LogOk(cfg, log) && i < |log|
    ensures log[i].Replied? ==>
              && j < i && Backs(cfg, log[j], log[i].token, log[i].claims, log[i].at)
              && log[j].Minted? && "govern:enforce" in log[j].client.allowedScopes
              && log[j].form.clientId == log[j].client.clientId && "govern:enforce" in Words(log[j].form.scope)
              && cfg.accepts(log[j].form.secret, log[j].client.clientSecretHash)
              && log[j].client in ClientsOf(Current(log[..j]))
              && OAuth.FindAuthorizedClient(log[j].form.clientId, ClientsOf(Current(log[..j]))) == Some(log[j].client)
  {
    hide Decision, Current;
    if !log[i].Replied? { return 0; }
    assert EventOk(cfg, log[..i], log[i]);
    j :| j < i && Backs(cfg, log[..i][j], log[i].token, log[i].claims, log[i].at);
    assert log[..i][j] == log[j] && EventOk(cfg, log[..j], log[j]);
  }

  lemma {:induction false} MintsArePast(cfg: Config, now: int, maxSize: nat, steps: seq<Step>)
    ensures var s := Run(cfg, Begin(now, maxSize), steps); forall e | e in s.log && e.Minted? :: e.at <= s.now
  {
    hide Exec;
    if steps != [] {
      MintsArePast(cfg, now, maxSize, steps[..|steps| - 1]);
      StepKeepsMintsPast(cfg, Run(cfg, Begin(now, maxSize), steps[..|steps| - 1]), steps[|steps| - 1]);
    }
  }

  lemma StepKeepsMintsPast(cfg: Config, s: System, step: Step)
    requires forall e | e in s.log && e.Minted? :: e.at <= s.now
    ensures var t := Exec(cfg, s, step); forall e | e in t.log && e.Minted? :: e.at <= t.now
  {
    hide AfterCycle, MemoryOf, Decision, Protocol.Exec, ApplyAll, MayPresent, Key.Gate, OAuth.Grant, Queued;
  }

  /** And the other way round, across restarts and rotations: a token minted at any moment of a run
      is answered at any later one exactly when it grants enforcement, has not expired, and was
      signed with the key in use now: the cached one, or if none is cached yet, the one in the key
      file. */
  lemma MintedTokenIsAnsweredExactly(cfg: Config, now: int, maxSize: nat, steps: seq<Step>, j: nat, req: Request)
    requires var log := Run(cfg, Begin(now, maxSize), steps).log; j < |log| && log[j].Minted?
    ensures var s := Run(cfg, Begin(now, maxSize), steps);
            var mint, t := s.log[j], Exec(cfg, s, Ask(OAuth.Bearer(s.log[j].token), req));
            && mint.token.Signed?
            && (|t.log| == |s.log| + 1 <==>
                  && "govern:enforce" in mint.scopes && s.now < mint.at + cfg.tokenTtl
                  && (if s.keys.publicKey.Some? then s.keys.privateKey else s.keys.file) == Some(mint.token.key))
  {
    hide Run, Inv, LogOk, Served;
    RunKeepsInv(cfg, now, maxSize, steps);
    var s := Run(cfg, Begin(now, maxSize), steps);
    InvExplainsLog(cfg, s);
    InvPairsKeys(cfg, s);
    MintsArePast(cfg, now, maxSize, steps);
    MintedFromItself(cfg, s.log, j);
    assert s.log[j] in s.log && MayPresent(s, OAuth.Bearer(s.log[j].token));
    MintPassesExactly(cfg, s.log[..j], s.log[j], s.keys, s.now);
    ServedIsLogged(cfg, s, req);
  }

  lemma InvPairsKeys(cfg: Config, s: System)
    requires Inv(cfg, s)
    ensures Key.Paired(s.keys)
  {
  }

  lemma MintedFromItself(cfg: Config, log: seq<Event>, j: nat)
    requires LogOk(cfg, log) && j < |log|
    ensures EventOk(cfg, log[..j], log[j])
  {
  }

  lemma ServedIsLogged(cfg: Config, s: System, req: Request)
    ensures forall keys, token, claims :: |Served(cfg, s.(keys := keys), token, claims, req).log| == |s.log| + 1
  {
  }

  lemma MintPassesExactly(cfg: Config, before: seq<Event>, mint: Event, keys: Key.Keys, at: int)
    requires mint.Minted? && EventOk(cfg, before, mint) && mint.at <= at && Key.Paired(keys)
    ensures mint.token.Signed?
    ensures Key.Gate(keys, OAuth.Bearer(mint.token), at as real).1.Passed? <==>
              && "govern:enforce" in mint.scopes && at < mint.at + cfg.tokenTtl
              && (if keys.publicKey.Some? then keys.privateKey else keys.file) == Some(mint.token.key)
  {
    hide Decision, Current, ClientsOf, Words;
    assert (mint.at as real).Floor == mint.at;
    OAuth.MintThenVerify(mint.client.clientId, mint.client.agentId, mint.scopes, cfg.tokenTtl, mint.token.key,
                         "edge:" + cfg.tenantId, mint.at as real, at as real);
  }

  /** Whom the audit trail names. An accepted event names the agent of the client whose token was
      presented, when that client has one; when it has none, the event names whatever agent the
      body of the request gives. So it is accounted to the client's agent exactly when the client
      has one, or the body gives none either; and to the token's subject, which is the client's
      id, exactly when the client's agent is called that, or it has none and the body says so. */
  lemma AuditedAgent(cfg: Config, now: int, maxSize: nat, steps: seq<Step>, keep: seq<nat>, x: nat) returns (j: nat)
    requires var s := Run(cfg, Begin(now, maxSize), steps);
             IsTrail(cfg, s.log, keep, s.queue.accepted) && x < |keep|
    ensures var s := Run(cfg, Begin(now, maxSize), steps);
            var reply, e := s.log[keep[x]], s.queue.accepted[x];
            && j < keep[x] && Backs(cfg, s.log[j], reply.token, reply.claims, reply.at)
            && (var agent, body := NameOf(s.log[j].client.agentId), NameOf(reply.req.agentId);
                && e.agentId == (if agent != "" then agent else body)
                && (e.agentId == agent <==> agent != "" || body == "")
                && reply.claims.sub == s.log[j].client.clientId
                && (e.agentId == reply.claims.sub <==>
                      (agent != "" && agent == reply.claims.sub) || (agent == "" && body == reply.claims.sub)))
  {
    hide Run, Inv, LogOk;
    RunKeepsInv(cfg, now, maxSize, steps);
    var s := Run(cfg, Begin(now, maxSize), steps);
    InvExplainsLog(cfg, s);
    assert ReportsReply(cfg, s.log[keep[x]], s.queue.accepted[x]);
    j := ReplyHasMint(cfg, s.log, keep[x]);
  }

  /** With payload-omit on, no row that is queued or in flight, at any moment of any run, carries
      arguments or a raw subject, or without a hash key any subject; and two accepted events name the same subject exactly when the
      requests they report did, or both subjects are withheld. */
  lemma OmittedPayloadStays(cfg: Config, now: int, maxSize: nat, steps: seq<Step>) returns (keep: seq<nat>)
    requires cfg.omitPayload
    ensures var s := Run(cfg, Begin(now, maxSize), steps);
            && IsTrail(cfg, s.log, keep, s.queue.accepted)
            && (forall row | Protocol.Known(s.queue, row) ::
                  && row.payload.actionPayload == map[] && !row.payload.subjectId.Raw?
                  && (cfg.subjectHashKey == "" ==> row.payload.subjectId == Nobody))
            && (forall x, y | 0 <= x < |keep| && 0 <= y < |keep| ::
                  SubjectsAgree(s.log[keep[x]], s.queue.accepted[x], s.log[keep[y]], s.queue.accepted[y]))
  {
    hide Run, Protocol.Reachable, Protocol.Known, Protocol.Inv, ReportsReply;
    RunKeepsInv(cfg, now, maxSize, steps);
    var s := Run(cfg, Begin(now, maxSize), steps);
    keep :| IsTrail(cfg, s.log, keep, s.queue.accepted);
    Protocol.ReachableInv(s.queue);
    forall row | Protocol.Known(s.queue, row)
      ensures row.payload.actionPayload == map[] && !row.payload.subjectId.Raw?
      ensures cfg.subjectHashKey == "" ==> row.payload.subjectId == Nobody
    {
      Protocol.KnownIsAccepted(s.queue, row);
      ReportOmits(cfg, s.log[keep[row.id - 1]], s.queue.accepted[row.id - 1]);
    }
    forall x, y | 0 <= x < |keep| && 0 <= y < |keep|
      ensures SubjectsAgree(s.log[keep[x]], s.queue.accepted[x], s.log[keep[y]], s.queue.accepted[y])
    {
      ReportsAgree(cfg, s.log[keep[x]], s.queue.accepted[x], s.log[keep[y]], s.queue.accepted[y]);
    }
  }

  /** The events name one subject exactly when the requests did, or neither names any. */
  ghost predicate SubjectsAgree(a: Event, e: AuditEvent, b: Event, f: AuditEvent) {
    && a.Replied? && b.Replied?
    && (e.subjectId == f.subjectId <==> a.req.subject == b.req.subject || (e.subjectId == Nobody && f.subjectId == Nobody))
  }

  lemma ReportOmits(cfg: Config, reply: Event, e: AuditEvent)
    requires cfg.omitPayload && ReportsReply(cfg, reply, e)
    ensures e.actionPayload == map[] && !e.subjectId.Raw?
    ensures cfg.subjectHashKey == "" ==> e.subjectId == Nobody
  {
  }

  lemma ReportsAgree(cfg: Config, a: Event, e: AuditEvent, b: Event, f: AuditEvent)
    requires cfg.omitPayload && ReportsReply(cfg, a, e) && ReportsReply(cfg, b, f)
    ensures SubjectsAgree(a, e, b, f)
  {
  }

  // ---------------------------------------------------------------------------
  // Clients listed in the wrapper only
  // ---------------------------------------------------------------------------

  /** If the step fetches, the policies it fetches list no clients, whatever the wrapper lists. */
  ghost predicate ListsNoClients(step: Step) {
    step.Sync? ==>
      var fetched := Cycle(step.multi, step.plural, step.singular, 0).Outcome();
      fetched.Fetched? ==> forall p | p in fetched.value.policies :: p.authorizedClients == []
  }

  ghost predicate FetchListsNoClients(e: Event) {
    forall p, at | IsFetchOf(e, p, at) :: p.authorizedClients == []
  }

  lemma StepListsNoClients(cfg: Config, s: System, step: Step)
    requires ListsNoClients(step) && forall e | e in s.log :: FetchListsNoClients(e)
    ensures forall e | e in Exec(cfg, s, step).log :: FetchListsNoClients(e)
  {
    hide AfterCycle, MemoryOf, Decision, Protocol.Exec, ApplyAll, MayPresent, Key.Gate, OAuth.Grant, Queued;
  }

  lemma {:induction false} FetchesListNoClients(cfg: Config, now: int, maxSize: nat, steps: seq<Step>)
    requires forall step | step in steps :: ListsNoClients(step)
    ensures forall e | e in Run(cfg, Begin(now, maxSize), steps).log :: FetchListsNoClients(e)
  {
    hide Exec, ListsNoClients, FetchListsNoClients;
    if steps != [] {
      var front, last := steps[..|steps| - 1], steps[|steps| - 1];
      assert last in steps && forall step | step in front :: step in steps;
      FetchesListNoClients(cfg, now, maxSize, front);
      StepListsNoClients(cfg, Run(cfg, Begin(now, maxSize), front), last);
    }
  }

  /** An edge whose clients are only ever listed in the wrapper of the plural endpoint mints no
      token and answers nothing, in any run from an empty directory. */
  lemma WrapperOnlyEdgeIsSilent(cfg: Config, now: int, maxSize: nat, steps: seq<Step>, i: nat)
    requires forall step | step in steps :: ListsNoClients(step)
    requires i < |Run(cfg, Begin(now, maxSize), steps).log|
    ensures Run(cfg, Begin(now, maxSize), steps).log[i].Installed?
  {
    hide Run, Inv, LogOk, ListsNoClients;
    RunKeepsInv(cfg, now, maxSize, steps);
    var s := Run(cfg, Begin(now, maxSize), steps);
    InvExplainsLog(cfg, s);
    FetchesListNoClients(cfg, now, maxSize, steps);
    if s.log[i].Minted? {
      MintNeedsAListing(cfg, s.log, i);
    } else if s.log[i].Replied? {
      var j := ReplyHasMint(cfg, s.log, i);
      MintNeedsAListing(cfg, s.log, j);
    }
  }

  lemma MintNeedsAListing(cfg: Config, log: seq<Event>, i: nat)
    requires LogOk(cfg, log) && i < |log| && log[i].Minted?
    ensures exists e | e in log :: !FetchListsNoClients(e)
  {
    hide Decision, Current, LogOk;
    MintIsListed(cfg, log, i);
    var m := Current(log[..i]);
    var snap := m.snapshots[m.primary.value];
    MemoryWasFetched(cfg, log, i, m.primary.value);
    var e :| e in log[..i] && IsFetchOf(e, snap.policy, snap.refreshedAt);
    assert e in log && !FetchListsNoClients(e);
  }

  lemma MintIsListed(cfg: Config, log: seq<Event>, i: nat)
    requires LogOk(cfg, log) && i < |log| && log[i].Minted?
    ensures log[i].client in ClientsOf(Current(log[..i]))
  {
    hide Decision, Current;
    assert EventOk(cfg, log[..i], log[i]);
  }
}
