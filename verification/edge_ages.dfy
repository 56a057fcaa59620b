/** How old the policy behind a fresh answer is itself: the cache tests only the age of the
    installation as a whole. */
module EdgeAges {
  import opened Values
  import opened Evaluator
  import opened Bundle
  import opened PolicyDisk
  import opened PolicyAge
  import opened PolicyCache
  import opened PolicySync
  import opened Decide
  import opened EdgeSystem
  import opened EdgeRuns
  import OAuth
  import Key = KeyState
  import Protocol = TelemetryProtocol

  lemma EvaluatedIsRecent(cfg: Config, m: Memory, at: int, req: Request)
    requires Evaluated(Decision(cfg, m, at, req).0)
    ensures m.lastSuccess.Some? && at - m.lastSuccess.value <= cfg.staleThreshold
  {
  }

  /** How old the policy of a fresh answer is. The installation is within the threshold. After a
      sync the policy is exactly as old as that; after a startup it is as old as the file it was
      read from, and the installation is as old as the newest file loaded. */
  lemma OwnAge(cfg: Config, now: int, maxSize: nat, steps: seq<Step>, i: nat)
    returns (snap: Snapshot, j: nat, newest: int)
    requires var log := Run(cfg, Begin(now, maxSize), steps).log;
             i < |log| && log[i].Replied? && Evaluated(log[i].outcome)
    ensures var log := Run(cfg, Begin(now, maxSize), steps).log;
            && IsLatestInstall(log, i, j) && AnswersBy(cfg, Current(log[..i]), log[i].req, snap)
            && log[i].at - newest <= cfg.staleThreshold && snap.refreshedAt <= newest
            && (log[j].source.FromSync? ==> snap.refreshedAt == newest)
            && (log[j].source.FromDisk? ==>
                  && Load(log[j].source.files).Some? && IsNewest(Load(log[j].source.files).value.snapshots, newest)
                  && Load(log[j].source.files).value.lastSuccess == newest
                  && snap in Load(log[j].source.files).value.snapshots.Values
                  && exists path :: ReadFrom(log[j].source.files, path, snap))
  {
    hide Run, Inv, Decision, LogOk;
    RunKeepsInv(cfg, now, maxSize, steps);
    var s := Run(cfg, Begin(now, maxSize), steps);
    InvExplainsLog(cfg, s);
    var m, req := Current(s.log[..i]), s.log[i].req;
    ReplyIsDecision(cfg, s.log, i);
    EvaluatedIsRouted(cfg, m, s.log[i].at, req);
    EvaluatedIsRecent(cfg, m, s.log[i].at, req);
    snap, newest := m.snapshots[RoutedName(cfg, m.primary, req).value], m.lastSuccess.value;
    j := CurrentHasSource(s.log, i);
    if s.log[j].source.FromDisk? { LoadReadsFiles(s.log[j].source.files); }
  }

  /** Which startups are safe. After a startup, a request is answered as fresh only from a policy
      that is within the threshold itself, at every moment, exactly when the policy it is routed
      to is among the newest loaded. With `PolicyAge.AgesAgreeExactly`, all loaded policies are
      exactly when the listed files are of one age. */
  lemma FreshMeansRecentExactly(cfg: Config, files: Files, req: Request, snap: Snapshot)
    requires Load(files).Some? && AnswersBy(cfg, MemoryOf(FromDisk(files)), req, snap)
    ensures (forall time: int | Evaluated(Decision(cfg, MemoryOf(FromDisk(files)), time, req).0) ::
               time - snap.refreshedAt <= cfg.staleThreshold)
            <==> snap.refreshedAt == Load(files).value.lastSuccess
  {
    hide Load, Decision;
    var m := MemoryOf(FromDisk(files));
    LoadReadsFiles(files);
    var last := Load(files).value.lastSuccess;
    DecisionCases(cfg, m, last + cfg.staleThreshold, req);
    forall time: int ensures Evaluated(Decision(cfg, m, time, req).0) ==> time - last <= cfg.staleThreshold {
      DecisionCases(cfg, m, time, req);
    }
    if forall time: int | Evaluated(Decision(cfg, m, time, req).0) :: time - snap.refreshedAt <= cfg.staleThreshold {
      assert Evaluated(Decision(cfg, m, last + cfg.staleThreshold, req).0);
    }
  }

  // ---------------------------------------------------------------------------
  // Runs in which every multi-policy persist is carried out to its end
  // ---------------------------------------------------------------------------

  /** If the step fetches in multi-policy mode, all operations of its persist are done. */
  ghost predicate PersistsWhole(step: Step) {
    step.Sync? && step.multi ==>
      var c := Cycle(true, step.plural, step.singular, 0);
      c.Outcome().Fetched? ==> step.done == |PersistOf(c, step.removed, step.done).Ops()|
  }

  lemma OpsCount(policies: seq<EdgePolicy>, primary: Option<string>, removed: seq<string>, at: int)
    ensures |PersistOps(policies, primary, removed, at)| == 2 * |policies| + |removed| + 2
  {
    PolicyOpsCut(policies, at, 0);
  }

  ghost predicate AgesOk(s: System) {
    OneAge(s.disk) && forall e | e in s.log && e.Installed? && e.source.FromDisk? :: OneAge(e.source.files)
  }

  lemma SyncKeepsAges(s: System, c: Cycle, removed: seq<string>, done: nat)
    requires AgesOk(s)
    requires c.Outcome().Fetched? && c.multi ==> done == |PersistOf(c, removed, done).Ops()|
    ensures AgesOk(Synced(s, c, removed, done))
  {
    hide OneAge, ApplyAll, AfterCycle, PersistOps, LegacyOps;
    if c.Outcome().Fetched? && PersistOf(c, removed, done).Possible() {
      PersistKeepsAge(s.disk, PersistOf(c, removed, done));
    }
  }

  lemma StepKeepsAges(cfg: Config, s: System, step: Step)
    requires AgesOk(s) && PersistsWhole(step)
    ensures AgesOk(Exec(cfg, s, step))
  {
    hide OneAge, Synced, MemoryOf, Protocol.Exec, MayPresent, Key.Gate, OAuth.Grant, Queued, Decision, PersistOps, LegacyOps;
    match step
    case Sync(multi, plural, singular, removed, done) =>
      var c, zero := Cycle(multi, plural, singular, s.now), Cycle(multi, plural, singular, 0);
      if multi && zero.Outcome().Fetched? {
        var payload := zero.Outcome().value;
        OpsCount(payload.policies, ClearedPrimary(payload.primary, LastWins(payload.policies).Keys), removed, 0);
        OpsCount(payload.policies, ClearedPrimary(payload.primary, LastWins(payload.policies).Keys), removed, s.now);
      }
      SyncKeepsAges(s, c, removed, done);
    case Reboot(files, _, _) => if SameButTemporaries(s.disk, files) { TemporariesKeepAge(s.disk, files); }
    case _ =>
  }

  lemma {:induction false} RunKeepsAges(cfg: Config, now: int, maxSize: nat, steps: seq<Step>)
    requires forall step | step in steps :: PersistsWhole(step)
    ensures AgesOk(Run(cfg, Begin(now, maxSize), steps))
  {
    hide Exec, PersistsWhole, OneAge;
    if steps != [] {
      var front, last := steps[..|steps| - 1], steps[|steps| - 1];
      assert last in steps && forall step | step in front :: step in steps;
      RunKeepsAges(cfg, now, maxSize, front);
      StepKeepsAges(cfg, Run(cfg, Begin(now, maxSize), front), last);
    } else {
      NoFilesHaveOneAge();
    }
  }

  lemma NoFilesHaveOneAge()
    ensures OneAge(map[])
  {
  }

  /** As long as no multi-policy persist is cut short, whatever becomes of singular ones: a policy
      that answers as fresh is itself within the threshold, through any restarts. */
  lemma WholePersistsKeepAnswersRecent(cfg: Config, now: int, maxSize: nat, steps: seq<Step>, i: nat)
    returns (snap: Snapshot)
    requires forall step | step in steps :: PersistsWhole(step)
    requires var log := Run(cfg, Begin(now, maxSize), steps).log;
             i < |log| && log[i].Replied? && Evaluated(log[i].outcome)
    ensures var log := Run(cfg, Begin(now, maxSize), steps).log;
            && AnswersBy(cfg, Current(log[..i]), log[i].req, snap)
            && log[i].at - snap.refreshedAt <= cfg.staleThreshold
  {
    hide Run, PersistsWhole, OneAge, AnswersBy, Load, IsLatestInstall;
    var j, newest;
    snap, j, newest := OwnAge(cfg, now, maxSize, steps, i);
    RunKeepsAges(cfg, now, maxSize, steps);
    var log := Run(cfg, Begin(now, maxSize), steps).log;
    InstallIsLogged(log, i, j);
    if log[j].source.FromDisk? {
      OneAgeLoads(log[j].source.files);
    }
  }

  lemma InstallIsLogged(log: seq<Event>, i: nat, j: nat)
    requires IsLatestInstall(log, i, j)
    ensures j < |log| && log[j] in log && log[j].Installed?
  {
  }

  /** So a body older than the threshold can be served as fresh: after a persist cut short once
      it renamed its first policy file, and a restart, a request routed to another listed policy
      by name is answered from the old body, not marked stale, for as long as the new file is
      within the threshold. */
  lemma OldBodyServedAsFresh(cfg: Config, files: Files, policies: seq<EdgePolicy>, primary: Option<string>,
                             removed: seq<string>, at: int, name: string, now: int, req: Request)
    requires DiskOk(files) && HasManifest(files) && policies != []
    requires forall n | n in removed :: n !in Names(policies)
    requires name in files[ManifestPath].content.names && PolicyPath(name) in files && name != policies[0].bundle.name
    requires policies[0].bundle.name in files[ManifestPath].content.names
    requires forall n | PolicyPath(n) in files :: files[PolicyPath(n)].mtime <= at
    requires cfg.multiPolicy && req.policyName == Some(name) && name != ""
    requires now - at <= cfg.staleThreshold < now - files[PolicyPath(name)].mtime
    ensures |PersistOps(policies, primary, removed, at)| > 2
    ensures var m := MemoryOf(FromDisk(ApplyAll(files, PersistOps(policies, primary, removed, at)[..2])));
            && Evaluated(Decision(cfg, m, now, req).0)
            && AnswersBy(cfg, m, req, Snap(files[PolicyPath(name)].content.policy, files[PolicyPath(name)].mtime))
            && now - files[PolicyPath(name)].mtime > cfg.staleThreshold
  {
    hide ApplyAll, PersistOps, Load, Evaluate;
    CutPersistHidesAge(files, policies, primary, removed, at, name);
  }
}
