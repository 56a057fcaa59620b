/** Whole runs of an edge: startups, syncs that succeed or fail, the clock, key rotations,
    deliveries, token requests and decisions in any order. */
module EdgeSystem {
  import opened Values
  import opened Ordering
  import opened Text
  import opened Payload
  import opened Bundle
  import opened PolicyDisk
  import opened PolicyCache
  import opened PolicySync
  import opened Decide
  import OAuth
  import Key = KeyState
  import Protocol = TelemetryProtocol

  /** Where the policies in memory come from: the fetch of a sync cycle, or the files found by
      a startup. */
  datatype Source = FromSync(cycle: Cycle) | FromDisk(files: Files)

  ghost function MemoryOf(source: Source): Memory {
    match source
    case FromSync(c) => AfterCycle(COLD, c)
    case FromDisk(files) => if Load(files).Some? then Rehydrated(Load(files).value) else COLD
  }

  /** A token request. */
  datatype TokenForm = TokenForm(grantType: string, clientId: string, secret: string, scope: string)

  datatype Event =
    | Installed(source: Source)
    | Minted(at: int, form: TokenForm, client: AuthorizedClient, scopes: seq<string>, token: OAuth.Token)
    | Replied(at: int, token: OAuth.Token, claims: OAuth.AgentTokenClaims, req: Request, outcome: Outcome)

  datatype System = System(
    mem: Memory,
    disk: Files,             // the policy files
    now: int,
    keys: Key.Keys,
    held: set<OAuth.Pem>,    // every text the key file ever held
    queue: Protocol.State,
    counters: Counters,
    outcomes: seq<Outcome>,  // of this process
    log: seq<Event>)         // of all processes

  /** What can happen. A Sync that fetches carries out the first `done` operations of its persist,
      which removes orphans in the given order; a Reboot finds the files as they were left, with
      temporary files in any state. Rekey overwrites the key file, as a rotation does, or removes it; Deliver
      is a step of some tick of the sender. */
  datatype Step =
    | Issue(form: TokenForm)
    | Ask(header: OAuth.Header, req: Request)
    | Rekey(file: Option<OAuth.Pem>)
    | Sync(multi: bool, plural: Reply<Option<PluralBody>>, singular: Reply<Option<EdgePolicy>>,
           removed: seq<string>, done: nat)
    | Wait(seconds: nat)
    | Deliver(step: Protocol.Step)
    | Reboot(files: Files, keyFile: Option<OAuth.Pem>, maxSize: nat)

  ghost function Begin(now: int, maxSize: nat): System {
    System(COLD, map[], now, Key.Keys(None, None, None), {}, Protocol.Start(maxSize), FRESH, [], [])
  }

  function Held(file: Option<OAuth.Pem>): set<OAuth.Pem> { if file.Some? then {file.value} else {} }

  /** Nobody else can sign with a key of this edge. So a token under one of them was minted by
      the token endpoint, or is one the edge signs for the control plane, which has no scope. */
  ghost predicate MayPresent(s: System, header: OAuth.Header) {
    header.Bearer? && header.token.Signed? && header.token.key in s.held ==>
      header.token.claims.scope == "" || exists e | e in s.log :: e.Minted? && e.token == header.token
  }

  /** A token request: on a grant the key pair is loaded, and if it is there a token is minted. */
  ghost function Issued(cfg: Config, s: System, form: TokenForm): System {
    var grant := OAuth.Grant(form.grantType, form.clientId, form.secret, form.scope, s.mem.snapshots != map[],
                             ClientsOf(s.mem), cfg.accepts);
    if grant.Denied? then s
    else
      var (keys, pair) := Key.PairForMint(s.keys);
      if !pair.Loaded? then s.(keys := keys)
      else
        var issued := OAuth.IssueToken(grant, Some(pair.value.0), cfg.tokenTtl, cfg.tenantId, s.now as real);
        s.(keys := keys, log := s.log + [Minted(s.now, form, grant.client, grant.scopes, issued.token)])
  }

  /** The persist that follows a fetch. */
  ghost function PersistOf(c: Cycle, removed: seq<string>, done: nat): Persist
    requires c.Outcome().Fetched?
  {
    var payload := c.Outcome().value;
    if c.multi then
      Multi(payload.policies, ClearedPrimary(payload.primary, LastWins(payload.policies).Keys), removed, c.now, done)
    else Singular(payload.policies[0], c.now, done)
  }

  ghost function Synced(s: System, c: Cycle, removed: seq<string>, done: nat): System {
    if !c.Outcome().Fetched? || !PersistOf(c, removed, done).Possible() then s
    else
      var p := PersistOf(c, removed, done);
      s.(mem := AfterCycle(s.mem, c), disk := ApplyAll(s.disk, p.Ops()[..done]), log := s.log + [Installed(FromSync(c))])
  }

  /** A decision request that has passed the gate. */
  ghost function Served(cfg: Config, s: System, token: OAuth.Token, claims: OAuth.AgentTokenClaims, req: Request): System {
    var o := Decision(cfg, s.mem, s.now, req).0;
    s.(queue := Queued(cfg, s.mem, s.now, claims, req, s.queue), counters := Counted(s.counters, o),
       outcomes := s.outcomes + [o], log := s.log + [Replied(s.now, token, claims, req, o)])
  }

  ghost function Exec(cfg: Config, s: System, step: Step): System {
    match step
    case Issue(form) => Issued(cfg, s, form)
    case Ask(header, req) =>
      if !header.Bearer? || !MayPresent(s, header) then s
      else
        var (keys, gate) := Key.Gate(s.keys, header, s.now as real);
        if gate.Passed? then Served(cfg, s.(keys := keys), header.token, gate.claims, req) else s.(keys := keys)
    case Rekey(file) => s.(keys := s.keys.(file := file), held := s.held + Held(file))
    case Sync(multi, plural, singular, removed, done) => Synced(s, Cycle(multi, plural, singular, s.now), removed, done)
    case Wait(seconds) => s.(now := s.now + seconds)
    case Deliver(q) => if q.Enqueue? || q.Restart? then s else s.(queue := Protocol.Exec(s.queue, q))
    case Reboot(files, keyFile, maxSize) =>
      if !SameButTemporaries(s.disk, files) then s
      else
        System(MemoryOf(FromDisk(files)), files, s.now, Key.Keys(None, None, keyFile), s.held + Held(keyFile),
               Protocol.Exec(s.queue, Protocol.Restart(maxSize)), FRESH, [], s.log + [Installed(FromDisk(files))])
  }

  ghost function Run(cfg: Config, s: System, steps: seq<Step>): System {
    if steps == [] then s else Exec(cfg, Run(cfg, s, steps[..|steps| - 1]), steps[|steps| - 1])
  }

  // ---------------------------------------------------------------------------
  // The log explains the memory and every answer
  // ---------------------------------------------------------------------------

  /** The memory the latest installation in the log left. */
  ghost function Current(log: seq<Event>): Memory {
    if log == [] then COLD
    else if log[|log| - 1].Installed? then MemoryOf(log[|log| - 1].source)
    else Current(log[..|log| - 1])
  }

  /** The minted token is in date, carries these claims and grants enforcement. */
  ghost predicate Backs(cfg: Config, mint: Event, token: OAuth.Token, claims: OAuth.AgentTokenClaims, at: int) {
    && mint.Minted? && token == mint.token && mint.at <= at < mint.at + cfg.tokenTtl
    && claims == OAuth.AgentTokenClaims(mint.client.clientId, mint.client.agentId, mint.scopes, mint.at + cfg.tokenTtl, mint.at)
    && "govern:enforce" in mint.scopes
  }

  /** The event is a fetch, at this time, of a payload with this policy. */
  ghost predicate IsFetchOf(e: Event, p: EdgePolicy, at: int) {
    && e.Installed? && e.source.FromSync? && e.source.cycle.Outcome().Fetched?
    && p in e.source.cycle.Outcome().value.policies && e.source.cycle.now == at
  }

  ghost predicate WasFetched(log: seq<Event>, p: EdgePolicy, at: int) {
    exists e | e in log :: IsFetchOf(e, p, at)
  }

  /** A startup loads only what was fetched before, as old as the fetch. A token is minted for a
      client that the primary policy of the moment lists, on one of its secrets, with scopes
      that were asked for and that it may have; an answer is the decision on the memory of the
      moment, for the bearer of a token minted before. */
  ghost predicate EventOk(cfg: Config, before: seq<Event>, e: Event) {
    match e
    case Installed(FromSync(_)) => true
    case Installed(FromDisk(files)) =>
      forall n | n in MemoryOf(e.source).snapshots ::
        WasFetched(before, MemoryOf(e.source).snapshots[n].policy, MemoryOf(e.source).snapshots[n].refreshedAt)
    case Minted(at, form, client, scopes, token) =>
      && OAuth.FindAuthorizedClient(form.clientId, ClientsOf(Current(before))) == Some(client)
      && client in ClientsOf(Current(before)) && client.clientId == form.clientId
      && cfg.accepts(form.secret, client.clientSecretHash)
      && (forall x | x in scopes :: x in client.allowedScopes && x in Words(form.scope) && IsWord(x))
      && token.Signed? && token.key.Rsa?
      && token == OAuth.MintAgentToken(client.clientId, client.agentId, scopes, cfg.tokenTtl, token.key,
                                       "edge:" + cfg.tenantId, at as real).0
    case Replied(at, token, claims, req, outcome) =>
      && outcome == Decision(cfg, Current(before), at, req).0
      && exists j: nat :: j < |before| && Backs(cfg, before[j], token, claims, at)
  }

  ghost predicate LogOk(cfg: Config, log: seq<Event>) {
    forall i | 0 <= i < |log| :: EventOk(cfg, log[..i], log[i])
  }

  /** Every policy file holds a policy that was fetched, as old as the fetch. */
  ghost predicate FilesOk(s: System) {
    forall path | IsPolicyFile(path) && HoldsPolicy(s.disk, path) ::
      WasFetched(s.log, s.disk[path].content.policy, s.disk[path].mtime)
  }

  /** The cached pair belongs together, and its key was in the file once. */
  ghost predicate KeysOk(s: System) {
    && Key.Paired(s.keys)
    && (s.keys.privateKey.Some? ==> s.keys.privateKey.value in s.held)
    && (s.keys.file.Some? ==> s.keys.file.value in s.held)
  }

  ghost predicate CountsOk(s: System) {
    && s.counters.cacheHits == CountEvaluated(s.outcomes) == s.queue.attempts
    && s.counters.decisions == Verdicts(s.outcomes)
    && Protocol.Reachable(s.queue)
  }

  /** The event reports this evaluated answer. */
  ghost predicate ReportsReply(cfg: Config, reply: Event, e: AuditEvent) {
    reply.Replied? && Evaluated(reply.outcome) && Reports(e, cfg, reply.claims, reply.req, reply.outcome.response)
  }

  /** The events report the answers at these positions of the log, one each and in their order. */
  ghost predicate IsTrail(cfg: Config, log: seq<Event>, keep: seq<nat>, accepted: seq<AuditEvent>) {
    && IsSelection(keep, |log|) && |keep| == |accepted|
    && forall x | 0 <= x < |keep| :: ReportsReply(cfg, log[keep[x]], accepted[x])
  }

  ghost predicate TrailOk(cfg: Config, s: System) {
    exists keep :: IsTrail(cfg, s.log, keep, s.queue.accepted)
  }

  ghost predicate Inv(cfg: Config, s: System) {
    s.mem == Current(s.log) && LogOk(cfg, s.log) && FilesOk(s) && KeysOk(s) && CountsOk(s) && TrailOk(cfg, s)
  }

  // ---------------------------------------------------------------------------
  // Every step keeps the log explained
  // ---------------------------------------------------------------------------

  lemma LogSnoc(cfg: Config, log: seq<Event>, e: Event)
    requires LogOk(cfg, log) && EventOk(cfg, log, e)
    ensures LogOk(cfg, log + [e])
    ensures Current(log + [e]) == if e.Installed? then MemoryOf(e.source) else Current(log)
  {
    hide EventOk, MemoryOf;
    var longer := log + [e];
    assert longer[..|log|] == log;
    forall i | 0 <= i < |longer| ensures EventOk(cfg, longer[..i], longer[i]) {
      if i < |log| { assert longer[..i] == log[..i]; }
    }
  }

  /** Whoever passes the gate bears a token that the token endpoint minted. */
  lemma GateIsBacked(cfg: Config, s: System, header: OAuth.Header) returns (j: nat)
    requires LogOk(cfg, s.log) && KeysOk(s) && MayPresent(s, header)
    ensures var gate := Key.Gate(s.keys, header, s.now as real).1;
            gate.Passed? ==> header.Bearer? && j < |s.log| && Backs(cfg, s.log[j], header.token, gate.claims, s.now)
  {
    if !Key.Gate(s.keys, header, s.now as real).1.Passed? { return 0; }
    hide EventOk, Words;
    var token, key := header.token, Key.KeyForVerify(s.keys).1.value;
    OAuth.GatePassesExactly(header, Some(key), s.now as real);
    assert key.of in s.held;
    NoWords();
    var e :| e in s.log && e.Minted? && e.token == token;
    j :| j < |s.log| && s.log[j] == e;
    MintIsBacking(cfg, s.log[..j], e, key, s.now);
  }

  lemma NoWords()
    ensures Words("") == []
  {
  }

  lemma MintIsBacking(cfg: Config, before: seq<Event>, e: Event, key: OAuth.PublicKey, at: int)
    requires e.Minted? && EventOk(cfg, before, e)
    requires OAuth.RequireAgentToken(OAuth.Bearer(e.token), Some(key), at as real).Passed?
    ensures Backs(cfg, e, e.token, OAuth.RequireAgentToken(OAuth.Bearer(e.token), Some(key), at as real).claims, at)
  {
    OAuth.GatePassesExactly(OAuth.Bearer(e.token), Some(key), at as real);
    assert (e.at as real).Floor == e.at;
    OAuth.MintThenVerify(e.client.clientId, e.client.agentId, e.scopes, cfg.tokenTtl, e.token.key,
                         "edge:" + cfg.tenantId, e.at as real, at as real);
  }

  lemma MintIsOk(cfg: Config, s: System, form: TokenForm)
    requires s.mem == Current(s.log) && KeysOk(s)
    ensures Issued(cfg, s, form).log == s.log ||
            exists e :: Issued(cfg, s, form).log == s.log + [e] && e.Minted? && EventOk(cfg, s.log, e)
  {
    var grant := OAuth.Grant(form.grantType, form.clientId, form.secret, form.scope, s.mem.snapshots != map[],
                             ClientsOf(s.mem), cfg.accepts);
    if grant.Granted? && Key.PairForMint(s.keys).1.Loaded? {
      OAuth.FindsFirst(form.clientId, ClientsOf(s.mem));
      var keep := OAuth.NarrowScopesKeeps(OAuth.Requested(form.scope), grant.client.allowedScopes);
      assert Issued(cfg, s, form).log[..|s.log|] == s.log;
      assert EventOk(cfg, s.log, Issued(cfg, s, form).log[|s.log|]);
    }
  }

  lemma WasFetchedStays(log: seq<Event>, more: seq<Event>, p: EdgePolicy, at: int)
    requires log <= more && WasFetched(log, p, at)
    ensures WasFetched(more, p, at)
  {
    var e :| e in log && IsFetchOf(e, p, at);
    var i :| 0 <= i < |log| && log[i] == e;
    assert more[i] == e;
  }

  /** The log only grows, so files that stay as they were stay fetched. */
  lemma FilesStay(s: System, t: System)
    requires FilesOk(s) && s.log <= t.log && SameButTemporaries(s.disk, t.disk)
    ensures FilesOk(t)
  {
    hide WasFetched;
    forall path | IsPolicyFile(path) && HoldsPolicy(t.disk, path)
      ensures WasFetched(t.log, t.disk[path].content.policy, t.disk[path].mtime)
    {
      assert SameAt(s.disk, t.disk, path);
      WasFetchedStays(s.log, t.log, s.disk[path].content.policy, s.disk[path].mtime);
    }
  }

  lemma SyncKeepsFiles(s: System, c: Cycle, removed: seq<string>, done: nat)
    requires FilesOk(s)
    ensures FilesOk(Synced(s, c, removed, done))
  {
    hide ApplyAll, AfterCycle, PersistOps, LegacyOps;
    var t := Synced(s, c, removed, done);
    if c.Outcome().Fetched? && PersistOf(c, removed, done).Possible() {
      var p := PersistOf(c, removed, done);
      forall path | IsPolicyFile(path) && HoldsPolicy(t.disk, path)
        ensures WasFetched(t.log, t.disk[path].content.policy, t.disk[path].mtime)
      {
        PersistWritesPayload(s.disk, p, path);
        if SameAt(s.disk, t.disk, path) {
          WasFetchedStays(s.log, t.log, s.disk[path].content.policy, s.disk[path].mtime);
        } else {
          assert IsFetchOf(t.log[|s.log|], t.disk[path].content.policy, c.now);
        }
      }
    }
  }

  lemma StepKeepsFiles(cfg: Config, s: System, step: Step)
    requires FilesOk(s)
    ensures FilesOk(Exec(cfg, s, step))
  {
    hide FilesOk, Synced, MemoryOf, Protocol.Exec, MayPresent, Key.Gate, OAuth.Grant, Queued, Decision;
    match step
    case Sync(multi, plural, singular, removed, done) =>
      SyncKeepsFiles(s, Cycle(multi, plural, singular, s.now), removed, done);
    case _ => FilesStay(s, Exec(cfg, s, step));
  }

  /** What a startup loads was fetched, since the files it finds were. */
  lemma RebootIsOk(cfg: Config, s: System, files: Files)
    requires FilesOk(s) && SameButTemporaries(s.disk, files)
    ensures EventOk(cfg, s.log, Installed(FromDisk(files)))
  {
    hide WasFetched;
    if Load(files).Some? {
      LoadReadsFiles(files);
      var l := Load(files).value;
      forall n | n in l.snapshots ensures WasFetched(s.log, l.snapshots[n].policy, l.snapshots[n].refreshedAt) {
        var path :| ReadFrom(files, path, l.snapshots[n]);
        assert SameAt(s.disk, files, path);
      }
    }
  }

  lemma StepKeepsLog(cfg: Config, s: System, step: Step)
    requires s.mem == Current(s.log) && LogOk(cfg, s.log) && FilesOk(s) && KeysOk(s)
    ensures var t := Exec(cfg, s, step); t.mem == Current(t.log) && LogOk(cfg, t.log)
  {
    hide LogOk, FilesOk, KeysOk, Decision, MemoryOf, AfterCycle, Protocol.Exec, MayPresent, Backs, Key.Gate, Queued;
    hide SameButTemporaries, ApplyAll, WasFetched;
    match step
    case Issue(form) =>
      hide EventOk;
      MintIsOk(cfg, s, form);
      if e :| Issued(cfg, s, form).log == s.log + [e] && e.Minted? && EventOk(cfg, s.log, e) { LogSnoc(cfg, s.log, e); }
    case Ask(header, req) =>
      if header.Bearer? && MayPresent(s, header) && Key.Gate(s.keys, header, s.now as real).1.Passed? {
        var j := GateIsBacked(cfg, s, header);
        LogSnoc(cfg, s.log, Replied(s.now, header.token, Key.Gate(s.keys, header, s.now as real).1.claims, req,
                                    Decision(cfg, s.mem, s.now, req).0));
      }
    case Sync(multi, plural, singular, removed, done) =>
      var c := Cycle(multi, plural, singular, s.now);
      if c.Outcome().Fetched? {
        LogSnoc(cfg, s.log, Installed(FromSync(c)));
        FetchedMemory(s.mem, c);
      }
    case Reboot(files, _, _) =>
      hide EventOk;
      if SameButTemporaries(s.disk, files) {
        RebootIsOk(cfg, s, files);
        LogSnoc(cfg, s.log, Installed(FromDisk(files)));
      }
    case _ =>
  }

  lemma StepKeepsKeys(cfg: Config, s: System, step: Step)
    requires KeysOk(s)
    ensures KeysOk(Exec(cfg, s, step))
  {
    hide Decision, MemoryOf, AfterCycle, Protocol.Exec, MayPresent, Queued, OAuth.Grant, OAuth.RequireAgentToken;
  }

  // ---------------------------------------------------------------------------
  // Every step keeps the accounts
  // ---------------------------------------------------------------------------

  lemma SameCounts(s: System, t: System)
    requires CountsOk(s) && t.queue == s.queue && t.counters == s.counters && t.outcomes == s.outcomes
    ensures CountsOk(t)
  {
  }

  lemma ServedKeepsCounts(cfg: Config, s: System, token: OAuth.Token, claims: OAuth.AgentTokenClaims, req: Request)
    requires CountsOk(s)
    ensures CountsOk(Served(cfg, s, token, claims, req))
  {
    hide Protocol.Reachable, Queued, Decision, CountEvaluated, Verdicts;
    CountsSnoc(s.outcomes, Decision(cfg, s.mem, s.now, req).0);
    QueuedIsCounted(cfg, s.mem, s.now, claims, req, s.queue);
  }

  lemma QueueStepKeepsCounts(s: System, t: System, q: Protocol.Step)
    requires CountsOk(s) && !q.Enqueue?
    requires t.queue == Protocol.Exec(s.queue, q)
    requires if q.Restart? then t.counters == FRESH && t.outcomes == []
             else t.counters == s.counters && t.outcomes == s.outcomes
    ensures CountsOk(t)
  {
    hide Protocol.Reachable;
    Protocol.ReachableStep(s.queue, q);
  }

  lemma StepKeepsCounts(cfg: Config, s: System, step: Step)
    requires CountsOk(s)
    ensures CountsOk(Exec(cfg, s, step))
  {
    hide CountsOk, MemoryOf, AfterCycle, Protocol.Exec, MayPresent, Key.Gate, Served, OAuth.Grant;
    var t := Exec(cfg, s, step);
    match step
    case Ask(header, req) =>
      if header.Bearer? && MayPresent(s, header) {
        var (keys, gate) := Key.Gate(s.keys, header, s.now as real);
        SameCounts(s, s.(keys := keys));
        if gate.Passed? { ServedKeepsCounts(cfg, s.(keys := keys), header.token, gate.claims, req); }
      }
    case Deliver(q) => if !q.Enqueue? && !q.Restart? { QueueStepKeepsCounts(s, t, q); }
    case Reboot(files, _, maxSize) =>
      if SameButTemporaries(s.disk, files) { QueueStepKeepsCounts(s, t, Protocol.Restart(maxSize)); }
    case _ => SameCounts(s, t);
  }

  /** More answers, or installations, leave a trail a trail. */
  lemma TrailStays(cfg: Config, s: System, t: System)
    requires TrailOk(cfg, s) && s.log <= t.log && t.queue.accepted == s.queue.accepted
    ensures TrailOk(cfg, t)
  {
    hide ReportsReply;
    var keep: seq<nat> :| IsTrail(cfg, s.log, keep, s.queue.accepted);
    assert IsTrail(cfg, t.log, keep, t.queue.accepted);
  }

  lemma TrailGrows(cfg: Config, s: System, t: System, e: AuditEvent, reply: Event)
    requires TrailOk(cfg, s) && ReportsReply(cfg, reply, e)
    requires t.log == s.log + [reply] && t.queue.accepted == s.queue.accepted + [e]
    ensures TrailOk(cfg, t)
  {
    hide ReportsReply;
    var keep: seq<nat> :| IsTrail(cfg, s.log, keep, s.queue.accepted);
    var longer := keep + [|s.log|];
    forall x | 0 <= x < |longer| ensures ReportsReply(cfg, t.log[longer[x]], t.queue.accepted[x]) {
      if x < |keep| { assert t.log[keep[x]] == s.log[keep[x]]; }
    }
    assert IsTrail(cfg, t.log, longer, t.queue.accepted);
  }

  lemma ServedKeepsTrail(cfg: Config, s: System, token: OAuth.Token, claims: OAuth.AgentTokenClaims, req: Request)
    requires TrailOk(cfg, s)
    ensures TrailOk(cfg, Served(cfg, s, token, claims, req))
  {
    hide TrailOk, Decision, EventOf, Reports;
    var t := Served(cfg, s, token, claims, req);
    var (o, r) := Decision(cfg, s.mem, s.now, req);
    EventReportsAnswer(cfg, s.mem, s.now, claims, req);
    if t.queue.accepted == s.queue.accepted {
      TrailStays(cfg, s, t);
    } else {
      TrailGrows(cfg, s, t, EventOf(cfg, claims, req, o.response.policyId.value, r.value),
                 Replied(s.now, token, claims, req, o));
    }
  }

  lemma OnlyOffersAreAccepted(s: Protocol.State, q: Protocol.Step)
    requires !q.Enqueue?
    ensures Protocol.Exec(s, q).accepted == s.accepted
  {
  }

  lemma StepKeepsTrail(cfg: Config, s: System, step: Step)
    requires TrailOk(cfg, s)
    ensures TrailOk(cfg, Exec(cfg, s, step))
  {
    hide TrailOk, MemoryOf, AfterCycle, Protocol.Exec, MayPresent, Key.Gate, Served, OAuth.Grant;
    match step
    case Ask(header, req) =>
      if header.Bearer? && MayPresent(s, header) {
        var (keys, gate) := Key.Gate(s.keys, header, s.now as real);
        TrailStays(cfg, s, s.(keys := keys));
        if gate.Passed? { ServedKeepsTrail(cfg, s.(keys := keys), header.token, gate.claims, req); }
      }
    case Deliver(q) =>
      if !q.Enqueue? && !q.Restart? { OnlyOffersAreAccepted(s.queue, q); }
      TrailStays(cfg, s, Exec(cfg, s, step));
    case Reboot(_, _, maxSize) =>
      OnlyOffersAreAccepted(s.queue, Protocol.Restart(maxSize));
      TrailStays(cfg, s, Exec(cfg, s, step));
    case _ => TrailStays(cfg, s, Exec(cfg, s, step));
  }

  lemma StepKeepsInv(cfg: Config, s: System, step: Step)
    requires Inv(cfg, s)
    ensures Inv(cfg, Exec(cfg, s, step))
  {
    hide Exec, LogOk, FilesOk, KeysOk, CountsOk, TrailOk;
    StepKeepsLog(cfg, s, step);
    StepKeepsFiles(cfg, s, step);
    StepKeepsKeys(cfg, s, step);
    StepKeepsCounts(cfg, s, step);
    StepKeepsTrail(cfg, s, step);
  }

  lemma FetchedMemory(m: Memory, c: Cycle)
    requires c.Outcome().Fetched?
    ensures AfterCycle(m, c) == MemoryOf(FromSync(c))
  {
  }

  lemma {:induction false} RunKeepsInv(cfg: Config, now: int, maxSize: nat, steps: seq<Step>)
    ensures Inv(cfg, Run(cfg, Begin(now, maxSize), steps))
  {
    hide Inv, Exec;
    if steps != [] {
      RunKeepsInv(cfg, now, maxSize, steps[..|steps| - 1]);
      StepKeepsInv(cfg, Run(cfg, Begin(now, maxSize), steps[..|steps| - 1]), steps[|steps| - 1]);
    } else {
      BeginIsOk(cfg, now, maxSize);
    }
  }

  lemma BeginIsOk(cfg: Config, now: int, maxSize: nat)
    ensures Inv(cfg, Begin(now, maxSize))
  {
    assert Protocol.Start(maxSize) == Protocol.Run(Protocol.Start(maxSize), []);
    assert IsTrail(cfg, [], [], []);
  }
}
