/** Credential files, enrollment at startup, and rotation by the heartbeat. */
module Identity {
  import opened Values
  import OAuth

  datatype Credentials = Credentials(
    edgeId: string,
    tenantId: string,
    certPem: string,
    keyPem: OAuth.Pem,
    caChainPem: string,
    certValidTo: int,
    agpEndpoint: string,
    telemetryEndpoint: string)

  /** The metadata file: readable, or cut short so that it does not parse. */
  datatype MetaDoc =
    | Meta(edgeId: string, tenantId: string, certValidTo: int, agpEndpoint: string, telemetryEndpoint: string)
    | Torn

  /** The four credential files; None is a missing file. */
  datatype Files = Files(cert: Option<string>, key: Option<OAuth.Pem>, ca: Option<string>, metadata: Option<MetaDoc>)

  function MetaOf(c: Credentials): MetaDoc {
    Meta(c.edgeId, c.tenantId, c.certValidTo, c.agpEndpoint, c.telemetryEndpoint)
  }

  /** The files after the first n of the four writes: certificate, key, CA chain, metadata. */
  function Persisted(f: Files, c: Credentials, n: nat): Files {
    Files(if n >= 1 then Some(c.certPem) else f.cert,
          if n >= 2 then Some(c.keyPem) else f.key,
          if n >= 3 then Some(c.caChainPem) else f.ca,
          if n >= 4 then Some(MetaOf(c)) else f.metadata)
  }

  /** A write that was under way when the process died leaves any text in its own file, and in
      the metadata file a text that does not parse. */
  ghost predicate LeavesTorn(f: Files, c: Credentials, n: nat, g: Files) {
    var p := Persisted(f, c, n);
    || (n == 0 && g == p.(cert := g.cert) && g.cert.Some?)
    || (n == 1 && g == p.(key := g.key) && g.key.Some?)
    || (n == 2 && g == p.(ca := g.ca) && g.ca.Some?)
    || (n == 3 && g == p.(metadata := Some(Torn)))
  }

  /** Cut between two writes, or inside one. */
  ghost predicate Leaves(f: Files, c: Credentials, n: nat, torn: bool, g: Files) {
    if torn then LeavesTorn(f, c, n, g) else g == Persisted(f, c, n)
  }

  ghost predicate MayLeave(f: Files, c: Credentials, n: nat, g: Files) {
    Leaves(f, c, n, false, g) || Leaves(f, c, n, true, g)
  }

  /** How many of the four files a persist got to, whole or torn. */
  function Touched(n: nat, torn: bool): nat { if torn then n + 1 else n }

  function LoadCredentials(f: Files): Option<Credentials> {
    if f.metadata.None? || f.metadata.value.Torn? || f.cert.None? || f.key.None? || f.ca.None? then None
    else
      var m := f.metadata.value;
      Some(Credentials(m.edgeId, m.tenantId, f.cert.value, f.key.value, f.ca.value, m.certValidTo,
                       m.agpEndpoint, m.telemetryEndpoint))
  }

  lemma PersistThenLoad(f: Files, c: Credentials)
    ensures LoadCredentials(Persisted(f, c, 4)) == Some(c)
  {
  }

  /** Whatever is on disk: four readable files make a bundle, each file its own part of it, and
      anything less makes none. */
  lemma LoadCredentialsExactly(f: Files)
    ensures f.cert.Some? && f.key.Some? && f.ca.Some? && f.metadata.Some? && f.metadata.value.Meta? ==>
              var m := f.metadata.value;
              LoadCredentials(f) == Some(Credentials(m.edgeId, m.tenantId, f.cert.value, f.key.value, f.ca.value,
                                                     m.certValidTo, m.agpEndpoint, m.telemetryEndpoint))
    ensures !(f.cert.Some? && f.key.Some? && f.ca.Some? && f.metadata.Some? && f.metadata.value.Meta?) ==>
              LoadCredentials(f) == None
  {
  }

  /** Stored credentials that a startup takes over: complete, and not expired. */
  function Reusable(f: Files, now: int): Option<Credentials> {
    var c := LoadCredentials(f);
    if c.Some? && c.value.certValidTo > now then c else None
  }

  /** The state directory; `remaining` writes succeed before the process dies or one raises. */
  class CredentialStore {
    var files: Files
    var remaining: nat

    constructor (files: Files, remaining: nat)
      ensures this.files == files && this.remaining == remaining
    {
      this.files, this.remaining := files, remaining;
    }

    method Persist(c: Credentials) returns (ok: bool)
      modifies this
      ensures files == Persisted(old(files), c, old(remaining))
      ensures ok <==> old(remaining) >= 4
      ensures ok ==> remaining == old(remaining) - 4
    {
      if remaining == 0 { return false; }
      files, remaining := files.(cert := Some(c.certPem)), remaining - 1;
      if remaining == 0 { return false; }
      files, remaining := files.(key := Some(c.keyPem)), remaining - 1;
      if remaining == 0 { return false; }
      files, remaining := files.(ca := Some(c.caChainPem)), remaining - 1;
      if remaining == 0 { return false; }
      files, remaining := files.(metadata := Some(MetaOf(c))), remaining - 1;
      ok := true;
    }
  }

  /** What startup ends with; Failed is a missing token or a refused enrollment, Died a
      process that did not survive its writes. */
  datatype Started = Reused(creds: Credentials) | Enrolled(creds: Credentials) | Failed | Died

  method BootstrapIfNeeded(store: CredentialStore, now: int, token: Option<string>, reply: Option<Credentials>)
    returns (r: Started)
    modifies store
    ensures r == Bootstrap(old(store.files), now, token, reply, old(store.remaining)).0
    ensures store.files == Bootstrap(old(store.files), now, token, reply, old(store.remaining)).1
    ensures var found := LoadCredentials(old(store.files));
            if found.Some? && found.value.certValidTo > now then
              r == Reused(found.value) && store.files == old(store.files) && store.remaining == old(store.remaining)
            else if token.None? || reply.None? then
              r == Failed && store.files == old(store.files) && store.remaining == old(store.remaining)
            else if old(store.remaining) >= 4 then
              r == Enrolled(reply.value) && LoadCredentials(store.files) == reply
            else r == Died
  {
    var existing := LoadCredentials(store.files);
    if existing.Some? && existing.value.certValidTo > now {
      return Reused(existing.value);
    }
    if token.None? { return Failed; }
    if reply.None? { return Failed; }
    var ok := store.Persist(reply.value);
    return if ok then Enrolled(reply.value) else Died;
  }

  /** Startup as a function of the files, the clock, the token, the reply of the control plane
      (None when it refuses) and how many writes get through. */
  function Bootstrap(f: Files, now: int, token: Option<string>, reply: Option<Credentials>, writes: nat): (Started, Files) {
    if Reusable(f, now).Some? then (Reused(Reusable(f, now).value), f)
    else if token.None? || reply.None? then (Failed, f)
    else (if writes >= 4 then Enrolled(reply.value) else Died, Persisted(f, reply.value, writes))
  }

  /** A restart needs no token: once credentials are persisted to the end, every startup before
      they expire returns them and touches nothing, whatever the token, the control plane and
      the disk. */
  lemma RestartReuses(f: Files, c: Credentials, now: int, token: Option<string>, reply: Option<Credentials>, writes: nat)
    requires c.certValidTo > now
    ensures Bootstrap(Persisted(f, c, 4), now, token, reply, writes) == (Reused(c), Persisted(f, c, 4))
  {
    PersistThenLoad(f, c);
  }

  // ---------------------------------------------------------------------------
  // The heartbeat
  // ---------------------------------------------------------------------------

  /** The parts of a bundle a rotation replaces. */
  datatype RotateBundle = RotateBundle(certPem: string, keyPem: OAuth.Pem, caChainPem: string, certValidTo: int)

  /** A control-plane call: the edge is revoked, a transient error, or an answer. */
  datatype Reply<T> = Revoked | Transient | Answer(value: T)

  function Rotated(c: Credentials, b: RotateBundle): Credentials {
    c.(certPem := b.certPem, keyPem := b.keyPem, caChainPem := b.caChainPem, certValidTo := b.certValidTo)
  }

  /** The credentials after a tick; they change only on a completed rotation. */
  function AfterTick(c: Credentials, beat: Reply<bool>, rotation: Reply<RotateBundle>, persisted: bool): Credentials {
    if beat == Answer(true) && rotation.Answer? && persisted then Rotated(c, rotation.value) else c
  }

  class HeartbeatState {
    var credentials: Credentials
    var revoked: bool
    var lastTickOkAt: Option<int>

    constructor (creds: Credentials)
      ensures credentials == creds && !revoked && lastTickOkAt == None
    {
      credentials, revoked, lastTickOkAt := creds, false, None;
    }

    /** One tick: a heartbeat, and a rotation when one is due. False means that it raises. */
    method OneTick(store: CredentialStore, beat: Reply<bool>, rotation: Reply<RotateBundle>, now: int)
      returns (ok: bool)
      modifies this, store
      ensures var rotating := beat == Answer(true) && rotation.Answer?;
              && credentials == AfterTick(old(credentials), beat, rotation, old(store.remaining) >= 4)
              && store.files == (if !rotating then old(store.files)
                                 else Persisted(old(store.files), Rotated(old(credentials), rotation.value),
                                                old(store.remaining)))
              && (rotating ==> (ok <==> old(store.remaining) >= 4))
      ensures SameEdge(old(credentials), credentials)
      ensures beat == Answer(true) && rotation.Answer? && old(store.remaining) >= 4 ==>
                && credentials == old(credentials).(certPem := rotation.value.certPem, keyPem := rotation.value.keyPem,
                                                    caChainPem := rotation.value.caChainPem,
                                                    certValidTo := rotation.value.certValidTo)
                && LoadCredentials(store.files) == Some(credentials)
      ensures !(beat == Answer(true) && rotation.Answer?) ==> store.files == old(store.files)
      ensures !(beat == Answer(true) && rotation.Answer? && old(store.remaining) >= 4) ==> credentials == old(credentials)
      ensures revoked == (old(revoked) || beat.Revoked? || (beat == Answer(true) && rotation.Revoked?))
      ensures lastTickOkAt == if beat.Answer? then Some(now) else old(lastTickOkAt)
      ensures beat.Revoked? || (beat == Answer(true) && rotation.Revoked?) ==> !ok
      ensures beat.Transient? || beat == Answer(false) || (beat == Answer(true) && rotation.Transient?) ==> ok
    {
      if beat.Revoked? {
        revoked := true;
        return false;
      }
      if beat.Transient? { return true; }
      lastTickOkAt := Some(now);
      if !beat.value { return true; }
      if rotation.Revoked? {
        revoked := true;
        return false;
      }
      if rotation.Transient? { return true; }
      var b := rotation.value;
      var renewed := Credentials(credentials.edgeId, credentials.tenantId, b.certPem, b.keyPem, b.caChainPem,
                                 b.certValidTo, credentials.agpEndpoint, credentials.telemetryEndpoint);
      ok := store.Persist(renewed);
      if ok {
        credentials := renewed;
      }
    }
  }

  // ---------------------------------------------------------------------------
  // Any history of startups, crashes and rotations
  // ---------------------------------------------------------------------------

  /** The files, the clock, the running process's first and present credentials, every bundle
      ever persisted to the end, whether a rotation was cut short since the last of those, every
      bundle a startup returned, and those of them returned after such a cut. */
  datatype State = State(
    files: Files,
    now: int,
    first: Option<Credentials>,
    running: Option<Credentials>,
    completed: seq<Credentials>,
    cut: bool,
    returned: seq<Credentials>,
    suspect: seq<Credentials>)

  /** A startup, whole or cut short after `writes` writes leaving `left`; a rotation, completed
      or cut short in the same way, after which the process may go on; the passing of time; the
      end of the process. */
  datatype Step =
    | Start(token: Option<string>, reply: Option<Credentials>, writes: nat, left: Files)
    | Rotate(bundle: RotateBundle)
    | CutRotate(bundle: RotateBundle, writes: nat, left: Files)
    | Advance(seconds: nat)
    | Stop

  ghost function Exec(s: State, step: Step): State {
    match step
    case Start(token, reply, writes, left) =>
      var (r, files) := Bootstrap(s.files, s.now, token, reply, writes);
      (match r
       case Reused(c) => s.(first := Some(c), running := Some(c), returned := s.returned + [c],
                            suspect := if s.cut then s.suspect + [c] else s.suspect)
       case Enrolled(c) => s.(files := files, first := Some(c), running := Some(c),
                              completed := s.completed + [c], cut := false, returned := s.returned + [c])
       case Failed => s.(first := None, running := None)
       case Died =>
         s.(files := if MayLeave(s.files, reply.value, writes, left) then left else files,
            first := None, running := None))
    case Rotate(bundle) =>
      if s.running.None? then s
      else
        var c := Rotated(s.running.value, bundle);
        s.(files := Persisted(s.files, c, 4), running := Some(c), completed := s.completed + [c], cut := false)
    case CutRotate(bundle, writes, left) =>
      if s.running.None? || writes >= 4 || !MayLeave(s.files, Rotated(s.running.value, bundle), writes, left) then s
      else s.(files := left, cut := true)
    case Advance(seconds) => s.(now := s.now + seconds)
    case Stop => s.(first := None, running := None)
  }

  ghost function Run(s: State, steps: seq<Step>): State {
    if steps == [] then s else Exec(Run(s, steps[..|steps| - 1]), steps[|steps| - 1])
  }

  /** The metadata file does not vouch for anything: it is missing, torn, or expired. */
  predicate Uncommitted(f: Files, now: int) {
    f.metadata.None? || f.metadata.value.Torn? || f.metadata.value.certValidTo <= now
  }

  /** The same edge, tenant and endpoints. */
  predicate SameEdge(a: Credentials, b: Credentials) {
    && a.edgeId == b.edgeId && a.tenantId == b.tenantId
    && a.agpEndpoint == b.agpEndpoint && a.telemetryEndpoint == b.telemetryEndpoint
  }

  /** The metadata is that of a bundle persisted to the end. */
  ghost predicate Vouched(m: MetaDoc, completed: seq<Credentials>) {
    exists x | x in completed :: m == MetaOf(x)
  }

  ghost predicate Inv(s: State) {
    && (Uncommitted(s.files, s.now) || Vouched(s.files.metadata.value, s.completed))
    && (s.cut || Uncommitted(s.files, s.now) ||
        (LoadCredentials(s.files).Some? && LoadCredentials(s.files).value in s.completed))
    && (forall c | c in s.returned :: Vouched(MetaOf(c), s.completed) && (c in s.completed || c in s.suspect))
    && (s.running.Some? <==> s.first.Some?)
    && (s.running.Some? ==> SameEdge(s.first.value, s.running.value))
  }

  lemma VouchedStays(completed: seq<Credentials>, more: seq<Credentials>)
    ensures forall m | Vouched(m, completed) :: Vouched(m, completed + more)
  {
    forall m | Vouched(m, completed) ensures Vouched(m, completed + more) {
      var x :| x in completed && m == MetaOf(x);
      assert x in completed + more;
    }
  }

  lemma CompletedVouches(completed: seq<Credentials>, c: Credentials)
    ensures Vouched(MetaOf(c), completed + [c])
  {
    assert c in completed + [c];
  }

  lemma StepKeepsInv(s: State, step: Step)
    requires Inv(s)
    ensures Inv(Exec(s, step))
  {
    hide Vouched;
    match step
    case Start(token, reply, writes, left) =>
      var r := Bootstrap(s.files, s.now, token, reply, writes).0;
      if r.Enrolled? {
        PersistThenLoad(s.files, r.creds);
        VouchedStays(s.completed, [r.creds]);
        CompletedVouches(s.completed, r.creds);
      }
    case Rotate(bundle) =>
      if s.running.Some? {
        var c := Rotated(s.running.value, bundle);
        PersistThenLoad(s.files, c);
        VouchedStays(s.completed, [c]);
        CompletedVouches(s.completed, c);
      }
    case _ =>
  }

  lemma BeginKeepsInv(files: Files, now: int)
    requires Uncommitted(files, now)
    ensures Inv(State(files, now, None, None, [], false, [], []))
  {
  }

  lemma InvSays(s: State)
    requires Inv(s)
    ensures forall c | c in s.returned :: Vouched(MetaOf(c), s.completed) && (c in s.completed || c in s.suspect)
    ensures s.running.Some? ==> SameEdge(s.first.value, s.running.value)
    ensures s.running.Some? ==> s.first.Some?
  {
  }

  /** Enrollment commits at the metadata file. From files whose metadata is missing or expired,
      over any history of startups and rotations, each completed or cut short anywhere with the
      file being written torn, and a clock that does not go back: every bundle a startup returns
      has the edge id, tenant, endpoints and expiry of one that was persisted to the end, and is
      such a bundle as a whole unless a rotation had been cut short since the last completed
      persist; and a running process keeps its edge id, tenant and endpoints. */
  lemma {:induction false} ReturnedWereCompleted(files: Files, now: int, steps: seq<Step>)
    requires Uncommitted(files, now)
    ensures var s := Run(State(files, now, None, None, [], false, [], []), steps);
            && Inv(s)
            && (forall c | c in s.returned :: Vouched(MetaOf(c), s.completed) && (c in s.completed || c in s.suspect))
            && ((forall step | step in steps :: !step.CutRotate?) ==> !s.cut && s.suspect == [])
            && (s.running.Some? ==> SameEdge(s.first.value, s.running.value))
  {
    hide Inv, Vouched, Bootstrap;
    if steps != [] {
      var front, last := steps[..|steps| - 1], steps[|steps| - 1];
      ReturnedWereCompleted(files, now, front);
      assert last in steps && forall step | step in front :: step in steps;
      StepKeepsInv(Run(State(files, now, None, None, [], false, [], []), front), last);
    } else {
      BeginKeepsInv(files, now);
    }
    InvSays(Run(State(files, now, None, None, [], false, [], []), steps));
  }

  /** Exactly when an enrollment cut short before its metadata is whole, between two writes or
      inside one, is taken for credentials by a later startup: when an earlier metadata file is
      still in date and was not being overwritten, and each of the other three files was already
      there or had been got to. */
  lemma CutEnrollmentReused(f: Files, c: Credentials, writes: nat, torn: bool, g: Files, later: int)
    requires writes < 4 && Leaves(f, c, writes, torn, g)
    ensures Reusable(g, later).Some? <==>
            && !Uncommitted(f, later) && Touched(writes, torn) < 4
            && (f.cert.Some? || Touched(writes, torn) >= 1)
            && (f.key.Some? || Touched(writes, torn) >= 2)
            && (f.ca.Some? || Touched(writes, torn) >= 3)
  {
  }

  /** What the three texts are after a cut rotation: new where the write got through, anything
      in the file being written, old elsewhere. */
  ghost predicate AreTexts(was: Credentials, b: RotateBundle, writes: nat, torn: bool, m: Credentials) {
    && (writes >= 1 ==> m.certPem == b.certPem) && (Touched(writes, torn) < 1 ==> m.certPem == was.certPem)
    && (writes >= 2 ==> m.keyPem == b.keyPem) && (Touched(writes, torn) < 2 ==> m.keyPem == was.keyPem)
    && (writes >= 3 ==> m.caChainPem == b.caChainPem) && (Touched(writes, torn) < 3 ==> m.caChainPem == was.caChainPem)
  }

  /** The file being written when the process died holds this bundle's text all the same. */
  predicate TornHolds(g: Files, writes: nat, c: Credentials) {
    && (writes == 0 ==> g.cert == Some(c.certPem)) && (writes == 1 ==> g.key == Some(c.keyPem))
    && (writes == 2 ==> g.ca == Some(c.caChainPem))
  }

  /** A rotation cut short is worse. Cut inside the metadata write, nothing is reused. Cut
      anywhere before, between two writes or inside one, and as long as the old certificate is
      in date, the next startup returns new files under old metadata. That is the old bundle
      exactly when the writes that got through changed nothing and a torn file holds its old
      text; and it is the new bundle exactly when the metadata and the files not got to would
      not have changed, and a torn file already holds its new text. */
  lemma CutRotationMixes(f: Files, was: Credentials, b: RotateBundle, writes: nat, torn: bool, g: Files, later: int)
    requires LoadCredentials(f) == Some(was) && was.certValidTo > later && writes < 4
    requires Leaves(f, Rotated(was, b), writes, torn, g)
    ensures Touched(writes, torn) == 4 ==> Reusable(g, later) == None
    ensures Touched(writes, torn) < 4 ==>
              && Reusable(g, later).Some? && g.cert.Some? && g.key.Some? && g.ca.Some?
              && var m := Reusable(g, later).value;
              && MetaOf(m) == MetaOf(was) && AreTexts(was, b, writes, torn, m)
              && (m == was <==>
                    && (writes >= 1 ==> b.certPem == was.certPem) && (writes >= 2 ==> b.keyPem == was.keyPem)
                    && (writes >= 3 ==> b.caChainPem == was.caChainPem)
                    && (torn ==> TornHolds(g, writes, was)))
              && (m == Rotated(was, b) <==>
                    && b.certValidTo == was.certValidTo
                    && (Touched(writes, torn) < 1 ==> b.certPem == was.certPem)
                    && (Touched(writes, torn) < 2 ==> b.keyPem == was.keyPem)
                    && (Touched(writes, torn) < 3 ==> b.caChainPem == was.caChainPem)
                    && (torn ==> TornHolds(g, writes, Rotated(was, b))))
  {
  }
}
