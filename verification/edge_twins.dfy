/** Two runs that differ only in what no policy looks at. */
module EdgeTwins {
  import opened Values
  import opened Evaluator
  import opened PolicyEdits
  import opened PolicyDisk
  import opened PolicyCache
  import opened PolicySync
  import opened Decide
  import opened EdgeSystem
  import opened EdgeRuns
  import OAuth
  import Key = KeyState
  import Protocol = TelemetryProtocol

  /** The same step, or a request with other arguments that the policy it is routed to in this
      memory cannot tell apart. */
  ghost predicate StepsAlike(cfg: Config, m: Memory, a: Step, b: Step) {
    || a == b
    || (&& a.Ask? && b.Ask? && a.header == b.header && b.req == a.req.(args := b.req.args)
        && forall snap | AnswersBy(cfg, m, a.req, snap) ::
             Indistinguishable(snap.policy.bundle.rules, InputOf(a.req), InputOf(b.req)))
  }

  ghost predicate RunsAlike(cfg: Config, now: int, maxSize: nat, steps: seq<Step>, other: seq<Step>) {
    && |steps| == |other|
    && forall k | 0 <= k < |steps| ::
         StepsAlike(cfg, Run(cfg, Begin(now, maxSize), steps[..k]).mem, steps[k], other[k])
  }

  /** The same event, or the same answer to a request with other arguments. */
  ghost predicate EventsAlike(a: Event, b: Event) {
    || a == b
    || (a.Replied? && b.Replied? && a.at == b.at && a.token == b.token && a.claims == b.claims && a.outcome == b.outcome)
  }

  ghost predicate LogsAlike(p: seq<Event>, q: seq<Event>) {
    |p| == |q| && forall i | 0 <= i < |p| :: EventsAlike(p[i], q[i])
  }

  ghost predicate Twins(cfg: Config, s: System, t: System) {
    && s.mem == t.mem && s.disk == t.disk && s.now == t.now && s.keys == t.keys && s.held == t.held
    && s.counters == t.counters && s.outcomes == t.outcomes && LogsAlike(s.log, t.log)
    && (cfg.omitPayload ==> s.queue == t.queue)
  }

  lemma CurrentIsCoherent(log: seq<Event>)
    ensures Coherent(Current(log))
  {
    if log != [] {
      var e := log[|log| - 1];
      if e.Installed? {
        match e.source
        case FromSync(c) =>
          if c.Outcome().Fetched? { InstalledIsCoherent(c.Outcome().value.policies, c.Outcome().value.primary, c.now); }
        case FromDisk(files) => if Load(files).Some? { RehydratedIsCoherent(files); }
      } else {
        CurrentIsCoherent(log[..|log| - 1]);
      }
    }
  }

  lemma MayPresentAlike(s: System, t: System, header: OAuth.Header)
    requires s.held == t.held && LogsAlike(s.log, t.log)
    ensures MayPresent(s, header) <==> MayPresent(t, header)
  {
    if e :| e in s.log && e.Minted? && header.Bearer? && e.token == header.token {
      var i :| 0 <= i < |s.log| && s.log[i] == e;
      assert EventsAlike(s.log[i], t.log[i]) && t.log[i] in t.log;
    }
    if e :| e in t.log && e.Minted? && header.Bearer? && e.token == header.token {
      var i :| 0 <= i < |t.log| && t.log[i] == e;
      assert EventsAlike(s.log[i], t.log[i]) && s.log[i] in s.log;
    }
  }

  /** The decision is the same, and with payload-omit on so is what is queued. */
  lemma DecisionsAlike(cfg: Config, m: Memory, now: int, claims: OAuth.AgentTokenClaims, a: Request, b: Request,
                       q: Protocol.State)
    requires Coherent(m) && b == a.(args := b.args)
    requires forall snap | AnswersBy(cfg, m, a, snap) :: Indistinguishable(snap.policy.bundle.rules, InputOf(a), InputOf(b))
    ensures Decision(cfg, m, now, a) == Decision(cfg, m, now, b)
    ensures cfg.omitPayload ==> Queued(cfg, m, now, claims, a, q) == Queued(cfg, m, now, claims, b, q)
  {
    hide Evaluate, Indistinguishable, Protocol.Exec, EventOf;
    var name := RoutedName(cfg, m.primary, a);
    assert RoutedName(cfg, m.primary, b) == name && ByName(cfg, b) == ByName(cfg, a);
    if name.Some? && name.value in m.snapshots {
      var snap := m.snapshots[name.value];
      assert AnswersBy(cfg, m, a, snap);
      DecisionNonInterference(cfg, m, now, claims, a, b, snap.policy);
    }
  }

  lemma LogsGrowAlike(p: seq<Event>, q: seq<Event>, a: Event, b: Event)
    requires LogsAlike(p, q) && EventsAlike(a, b)
    ensures LogsAlike(p + [a], q + [b])
  {
  }

  lemma AskKeepsTwins(cfg: Config, s: System, t: System, a: Step, b: Step)
    requires Twins(cfg, s, t) && Coherent(s.mem) && a.Ask? && b.Ask? && StepsAlike(cfg, s.mem, a, b)
    ensures Twins(cfg, Exec(cfg, s, a), Exec(cfg, t, b))
  {
    hide MayPresent, Key.Gate, Decision, Queued, Coherent, Indistinguishable, LogsAlike;
    MayPresentAlike(s, t, a.header);
    if a.header.Bearer? && MayPresent(s, a.header) {
      var gate := Key.Gate(s.keys, a.header, s.now as real).1;
      if gate.Passed? {
        if a != b { DecisionsAlike(cfg, s.mem, s.now, gate.claims, a.req, b.req, s.queue); }
        var o := Decision(cfg, s.mem, s.now, a.req).0;
        LogsGrowAlike(s.log, t.log, Replied(s.now, a.header.token, gate.claims, a.req, o),
                      Replied(s.now, a.header.token, gate.claims, b.req, o));
      }
    }
  }

  lemma StepKeepsTwins(cfg: Config, s: System, t: System, a: Step, b: Step)
    requires Twins(cfg, s, t) && Coherent(s.mem) && StepsAlike(cfg, s.mem, a, b)
    ensures Twins(cfg, Exec(cfg, s, a), Exec(cfg, t, b))
  {
    hide MayPresent, Key.Gate, Served, Coherent, Indistinguishable, LogsAlike, Issued, Synced, AfterCycle;
    hide ApplyAll, Protocol.Exec, MemoryOf, SameButTemporaries;
    match a
    case Ask(_, _) => AskKeepsTwins(cfg, s, t, a, b);
    case Issue(form) => IssueKeepsTwins(cfg, s, t, form);
    case Sync(multi, plural, singular, removed, done) =>
      SyncKeepsTwins(cfg, s, t, Cycle(multi, plural, singular, s.now), removed, done);
    case Reboot(files, _, _) => LogsGrowAlike(s.log, t.log, Installed(FromDisk(files)), Installed(FromDisk(files)));
    case _ =>
  }

  lemma IssueKeepsTwins(cfg: Config, s: System, t: System, form: TokenForm)
    requires Twins(cfg, s, t)
    ensures Twins(cfg, Issued(cfg, s, form), Issued(cfg, t, form))
  {
    hide LogsAlike, OAuth.Grant, Key.PairForMint, OAuth.MintAgentToken;
    var grant := OAuth.Grant(form.grantType, form.clientId, form.secret, form.scope, s.mem.snapshots != map[],
                             ClientsOf(s.mem), cfg.accepts);
    if grant.Granted? && Key.PairForMint(s.keys).1.Loaded? {
      var issued := OAuth.IssueToken(grant, Some(Key.PairForMint(s.keys).1.value.0), cfg.tokenTtl, cfg.tenantId, s.now as real);
      var e := Minted(s.now, form, grant.client, grant.scopes, issued.token);
      LogsGrowAlike(s.log, t.log, e, e);
    }
  }

  lemma SyncKeepsTwins(cfg: Config, s: System, t: System, c: Cycle, removed: seq<string>, done: nat)
    requires Twins(cfg, s, t)
    ensures Twins(cfg, Synced(s, c, removed, done), Synced(t, c, removed, done))
  {
    hide LogsAlike, AfterCycle, ApplyAll, PersistOps, LegacyOps;
    LogsGrowAlike(s.log, t.log, Installed(FromSync(c)), Installed(FromSync(c)));
  }

  lemma {:induction false} RunsKeepTwins(cfg: Config, now: int, maxSize: nat, steps: seq<Step>, other: seq<Step>)
    requires RunsAlike(cfg, now, maxSize, steps, other)
    ensures Twins(cfg, Run(cfg, Begin(now, maxSize), steps), Run(cfg, Begin(now, maxSize), other))
  {
    hide Exec, StepsAlike, Inv, Coherent;
    if steps != [] {
      var n := |steps| - 1;
      assert forall k | 0 <= k < n :: steps[..n][..k] == steps[..k];
      RunsKeepTwins(cfg, now, maxSize, steps[..n], other[..n]);
      var s := Run(cfg, Begin(now, maxSize), steps[..n]);
      RunKeepsInv(cfg, now, maxSize, steps[..n]);
      InvExplainsMemory(cfg, s);
      CurrentIsCoherent(s.log);
      StepKeepsTwins(cfg, s, Run(cfg, Begin(now, maxSize), other[..n]), steps[n], other[n]);
    }
  }

  lemma InvExplainsMemory(cfg: Config, s: System)
    requires Inv(cfg, s)
    ensures s.mem == Current(s.log)
  {
  }

  /** Non-interference over whole runs: change the arguments of any requests, each only in what
      the policy it is routed to at that moment cannot tell apart, and every answer, counter and
      token stays the same; and with payload-omit on, so do the audit queue, everything ever
      accepted into it, and everything ever posted. */
  lemma ArgumentsDoNotLeak(cfg: Config, now: int, maxSize: nat, steps: seq<Step>, other: seq<Step>)
    requires RunsAlike(cfg, now, maxSize, steps, other)
    ensures var s, t := Run(cfg, Begin(now, maxSize), steps), Run(cfg, Begin(now, maxSize), other);
            && |s.log| == |t.log|
            && (forall i | 0 <= i < |s.log| && s.log[i].Replied? :: t.log[i].Replied? && t.log[i].outcome == s.log[i].outcome)
            && (forall i | 0 <= i < |s.log| && !s.log[i].Replied? :: t.log[i] == s.log[i])
            && s.outcomes == t.outcomes && s.counters == t.counters
            && (cfg.omitPayload ==> s.queue.accepted == t.queue.accepted && s.queue.posts == t.queue.posts && s.queue == t.queue)
  {
    hide Run;
    RunsKeepTwins(cfg, now, maxSize, steps, other);
    var s, t := Run(cfg, Begin(now, maxSize), steps), Run(cfg, Begin(now, maxSize), other);
    assert forall i | 0 <= i < |s.log| :: EventsAlike(s.log[i], t.log[i]);
  }
}
