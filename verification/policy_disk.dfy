/** The policy files on disk: what a persist does to them, one file operation at a time, and
    what a restart reads back. */
module PolicyDisk {
  import opened Values
  import opened Text
  import opened Ordering
  import opened Compiler
  import opened Bundle

  /** The files of the state directory; names are file-safe, so different names are different
      files, and a temporary file is never mistaken for a policy file. */
  datatype Path =
    | ManifestPath
    | ManifestTmp
    | LegacyPath
    | LegacyTmp
    | PolicyPath(name: string)
    | PolicyTmp(name: string)
  {
    predicate IsTemporary() { ManifestTmp? || LegacyTmp? || PolicyTmp? }
  }

  datatype Content =
    | PolicyDoc(policy: EdgePolicy)
    | ManifestDoc(primary: Option<string>, names: seq<string>)
    | Garbage  // does not parse

  datatype File = File(content: Content, mtime: int)

  type Files = map<Path, File>

  /** One file operation; each is atomic. */
  datatype Op =
    | Write(path: Path, content: Content, at: int)
    | Rename(source: Path, target: Path)
    | Unlink(path: Path)

  function Apply(fs: Files, op: Op): Files {
    match op
    case Write(path, content, at) => fs[path := File(content, at)]
    case Rename(source, target) => if source in fs then (fs - {source})[target := fs[source]] else fs
    case Unlink(path) => fs - {path}
  }

  function ApplyAll(fs: Files, ops: seq<Op>): Files
    decreases |ops|
  {
    if ops == [] then fs else ApplyAll(Apply(fs, ops[0]), ops[1..])
  }

  lemma {:induction false} ApplyConcat(fs: Files, a: seq<Op>, b: seq<Op>)
    ensures ApplyAll(fs, a + b) == ApplyAll(ApplyAll(fs, a), b)
    decreases |a|
  {
    if a == [] {
      assert a + b == b;
    } else {
      assert (a + b)[1..] == a[1..] + b;
      ApplyConcat(Apply(fs, a[0]), a[1..], b);
    }
  }

  lemma ApplyPair(fs: Files, pair: seq<Op>)
    requires |pair| == 2
    ensures ApplyAll(fs, pair) == Apply(Apply(fs, pair[0]), pair[1])
  {
    var gs := Apply(fs, pair[0]);
    assert pair[1..] == [pair[1]] && ApplyAll(gs, [pair[1]]) == ApplyAll(Apply(gs, pair[1]), []);
  }

  // ---------------------------------------------------------------------------
  // Persisting
  // ---------------------------------------------------------------------------

  /** A policy file is written aside and renamed into place. */
  function PolicyPair(p: EdgePolicy, at: int): seq<Op> {
    var n := p.bundle.name;
    [Write(PolicyTmp(n), PolicyDoc(p), at), Rename(PolicyTmp(n), PolicyPath(n))]
  }

  function PolicyOps(policies: seq<EdgePolicy>, at: int): seq<Op> {
    if policies == [] then [] else PolicyPair(policies[0], at) + PolicyOps(policies[1..], at)
  }

  lemma {:induction false} PolicyOpsSnoc(policies: seq<EdgePolicy>, p: EdgePolicy, at: int)
    ensures PolicyOps(policies + [p], at) == PolicyOps(policies, at) + PolicyPair(p, at)
  {
    if policies == [] {
      assert policies + [p] == [p] && PolicyOps([], at) == [];
      assert PolicyOps([p], at) == PolicyPair(p, at) + PolicyOps([p][1..], at);
    } else {
      assert (policies + [p])[1..] == policies[1..] + [p];
      PolicyOpsSnoc(policies[1..], p, at);
    }
  }

  lemma {:induction false} PolicyOpsPrefix(policies: seq<EdgePolicy>, i: nat, at: int)
    requires i <= |policies|
    ensures PolicyOps(policies[..i], at) <= PolicyOps(policies, at)
    decreases |policies| - i
  {
    if i < |policies| {
      PolicyOpsPrefix(policies, i + 1, at);
      assert policies[..i + 1] == policies[..i] + [policies[i]];
      PolicyOpsSnoc(policies[..i], policies[i], at);
    } else {
      assert policies[..i] == policies;
    }
  }

  function UnlinkOps(names: seq<string>): seq<Op> {
    seq(|names|, i requires 0 <= i < |names| => Unlink(PolicyPath(names[i])))
  }

  function Names(policies: seq<EdgePolicy>): seq<string> {
    seq(|policies|, i requires 0 <= i < |policies| => policies[i].bundle.name)
  }

  function ManifestPair(policies: seq<EdgePolicy>, primary: Option<string>, at: int): seq<Op> {
    [Write(ManifestTmp, ManifestDoc(primary, StableSort(Names(policies), StringLe)), at),
     Rename(ManifestTmp, ManifestPath)]
  }

  /** All of a manifest persist: policy files, orphans in the order they were removed, manifest. */
  function PersistOps(policies: seq<EdgePolicy>, primary: Option<string>, removed: seq<string>, at: int): seq<Op> {
    PolicyOps(policies, at) + UnlinkOps(removed) + ManifestPair(policies, primary, at)
  }

  function LegacyOps(p: EdgePolicy, at: int): seq<Op> {
    [Write(LegacyTmp, PolicyDoc(p), at), Rename(LegacyTmp, LegacyPath)]
  }

  // ---------------------------------------------------------------------------
  // Recovering
  // ---------------------------------------------------------------------------

  datatype Snapshot = Snapshot(policy: EdgePolicy, compiled: CompiledPolicy, refreshedAt: int)

  datatype Loaded = Loaded(snapshots: map<string, Snapshot>, primary: Option<string>, lastSuccess: int)

  ghost function Snap(p: EdgePolicy, at: int): Snapshot { Snapshot(p, CompileBundle(p), at) }

  predicate HoldsPolicy(fs: Files, path: Path) { path in fs && fs[path].content.PolicyDoc? }

  /** Missing and unreadable files are skipped; a policy is registered under the name it carries. */
  ghost function LoadNames(fs: Files, names: seq<string>): map<string, Snapshot> {
    if names == [] then map[]
    else
      var before := LoadNames(fs, names[..|names| - 1]);
      var path := PolicyPath(names[|names| - 1]);
      if HoldsPolicy(fs, path) then
        var p := fs[path].content.policy;
        before[p.bundle.name := Snap(p, fs[path].mtime)]
      else before
  }

  ghost predicate IsNewest(snapshots: map<string, Snapshot>, at: int) {
    && (exists n :: n in snapshots && snapshots[n].refreshedAt == at)
    && forall n | n in snapshots :: snapshots[n].refreshedAt <= at
  }

  lemma {:induction false} NewestExists(snapshots: map<string, Snapshot>)
    requires snapshots != map[]
    ensures exists at :: IsNewest(snapshots, at)
    decreases |snapshots|
  {
    var n :| n in snapshots;
    var rest := snapshots - {n};
    assert forall m | m in snapshots :: m == n || (m in rest && rest[m] == snapshots[m]);
    assert rest.Keys == snapshots.Keys - {n};
    if rest == map[] {
      assert IsNewest(snapshots, snapshots[n].refreshedAt);
    } else {
      NewestExists(rest);
      var at :| IsNewest(rest, at);
      var best := if at >= snapshots[n].refreshedAt then at else snapshots[n].refreshedAt;
      assert IsNewest(snapshots, best);
    }
  }

  /** The newest modification time among the loaded files. */
  ghost function Newest(snapshots: map<string, Snapshot>): (at: int)
    requires snapshots != map[]
    ensures IsNewest(snapshots, at)
  {
    NewestExists(snapshots);
    var at :| IsNewest(snapshots, at);
    at
  }

  predicate HasManifest(fs: Files) { ManifestPath in fs && fs[ManifestPath].content.ManifestDoc? }

  ghost function LoadManifest(fs: Files): Option<Loaded> {
    if !HasManifest(fs) then None
    else
      var doc := fs[ManifestPath].content;
      var snapshots := LoadNames(fs, doc.names);
      if snapshots == map[] then None
      else
        Some(Loaded(snapshots,
                    if doc.primary.Some? && doc.primary.value in snapshots then doc.primary else None,
                    Newest(snapshots)))
  }

  ghost function LoadLegacy(fs: Files): Option<Loaded> {
    if HoldsPolicy(fs, LegacyPath) then
      var p, at := fs[LegacyPath].content.policy, fs[LegacyPath].mtime;
      Some(Loaded(map[p.bundle.name := Snap(p, at)], Some(p.bundle.name), at))
    else None
  }

  ghost function Load(fs: Files): Option<Loaded> {
    if LoadManifest(fs).Some? then LoadManifest(fs) else LoadLegacy(fs)
  }

  // ---------------------------------------------------------------------------
  // A persist cut short
  // ---------------------------------------------------------------------------

  ghost predicate SameAt(fs: Files, gs: Files, path: Path) {
    (path in fs <==> path in gs) && (path in fs ==> fs[path] == gs[path])
  }

  /** gs and fs differ at most in temporary files, torn ones included. */
  ghost predicate SameButTemporaries(fs: Files, gs: Files) {
    forall path: Path | !path.IsTemporary() :: SameAt(fs, gs, path)
  }

  /** The file of this name now holds one of these policies, under its own name, written then. */
  ghost predicate HoldsOneOf(fs: Files, name: string, policies: seq<EdgePolicy>, at: int) {
    && HoldsPolicy(fs, PolicyPath(name)) && fs[PolicyPath(name)].mtime == at
    && fs[PolicyPath(name)].content.policy in policies
    && fs[PolicyPath(name)].content.policy.bundle.name == name
  }

  /** What a persist of these policies may have done so far, short of its manifest rename:
      replaced policy files by new versions of the same name, and removed orphans. */
  ghost predicate Progress(fs: Files, gs: Files, policies: seq<EdgePolicy>, removed: seq<string>, at: int) {
    && SameAt(fs, gs, ManifestPath) && SameAt(fs, gs, LegacyPath)
    && forall n ::
         || SameAt(fs, gs, PolicyPath(n))
         || HoldsOneOf(gs, n, policies, at)
         || (PolicyPath(n) !in gs && n in removed)
  }

  lemma ProgressTransitive(fs: Files, gs: Files, hs: Files, policies: seq<EdgePolicy>, removed: seq<string>, at: int)
    requires Progress(fs, gs, policies, removed, at) && Progress(gs, hs, policies, removed, at)
    ensures Progress(fs, hs, policies, removed, at)
  {
  }

  /** Every prefix of the policy writes is progress. */
  lemma {:induction false} PolicyOpsProgress(fs: Files, todo: seq<EdgePolicy>, at: int, k: nat,
                                             policies: seq<EdgePolicy>, removed: seq<string>)
    requires k <= |PolicyOps(todo, at)| && forall p | p in todo :: p in policies
    ensures Progress(fs, ApplyAll(fs, PolicyOps(todo, at)[..k]), policies, removed, at)
    decreases |todo|
  {
    if k > 0 {
      var pair, rest := PolicyPair(todo[0], at), PolicyOps(todo[1..], at);
      assert todo[0] in todo;
      var written := Apply(fs, pair[0]);
      var renamed := Apply(written, pair[1]);
      if k == 1 {
        assert (pair + rest)[..1] == [pair[0]];
        assert ApplyAll(fs, [pair[0]]) == written;
      } else {
        assert (pair + rest)[..k] == [pair[0]] + ([pair[1]] + rest[..k - 2]);
        assert ([pair[0]] + ([pair[1]] + rest[..k - 2]))[1..] == [pair[1]] + rest[..k - 2];
        assert ([pair[1]] + rest[..k - 2])[1..] == rest[..k - 2];
        assert HoldsOneOf(renamed, todo[0].bundle.name, policies, at);
        assert Progress(fs, renamed, policies, removed, at);
        PolicyOpsProgress(renamed, todo[1..], at, k - 2, policies, removed);
        ProgressTransitive(fs, renamed, ApplyAll(renamed, rest[..k - 2]), policies, removed, at);
      }
    }
  }

  /** So is every prefix of the unlinks. */
  lemma {:induction false} UnlinkOpsProgress(fs: Files, todo: seq<string>, k: nat,
                                             policies: seq<EdgePolicy>, removed: seq<string>, at: int)
    requires k <= |todo| && forall n | n in todo :: n in removed
    ensures Progress(fs, ApplyAll(fs, UnlinkOps(todo)[..k]), policies, removed, at)
  {
    if k > 0 {
      var gone := Apply(fs, Unlink(PolicyPath(todo[0])));
      assert todo[0] in todo;
      assert UnlinkOps(todo)[..k][1..] == UnlinkOps(todo[1..])[..k - 1];
      UnlinkOpsProgress(gone, todo[1..], k - 1, policies, removed, at);
      ProgressTransitive(fs, gone, ApplyAll(gone, UnlinkOps(todo[1..])[..k - 1]), policies, removed, at);
    }
  }

  /** And so is everything short of the manifest rename. */
  lemma PersistProgress(fs: Files, policies: seq<EdgePolicy>, primary: Option<string>, removed: seq<string>,
                        at: int, k: nat)
    requires k < |PersistOps(policies, primary, removed, at)|
    ensures Progress(fs, ApplyAll(fs, PersistOps(policies, primary, removed, at)[..k]), policies, removed, at)
  {
    var a, b, c := PolicyOps(policies, at), UnlinkOps(removed), ManifestPair(policies, primary, at);
    var ops := a + b + c;
    if k <= |a| {
      assert ops[..k] == a[..k];
      PolicyOpsProgress(fs, policies, at, k, policies, removed);
    } else {
      assert a[..|a|] == a;
      PolicyOpsProgress(fs, policies, at, |a|, policies, removed);
      var gs := ApplyAll(fs, a);
      if k <= |a| + |b| {
        assert ops[..k] == a + b[..k - |a|];
        ApplyConcat(fs, a, b[..k - |a|]);
        UnlinkOpsProgress(gs, removed, k - |a|, policies, removed, at);
        ProgressTransitive(fs, gs, ApplyAll(gs, b[..k - |a|]), policies, removed, at);
      } else {
        assert b[..|b|] == b;
        UnlinkOpsProgress(gs, removed, |b|, policies, removed, at);
        var hs := ApplyAll(gs, b);
        ProgressTransitive(fs, gs, hs, policies, removed, at);
        assert ops[..k] == (a + b) + [c[0]];
        ApplyConcat(fs, a + b, [c[0]]);
        ApplyConcat(fs, a, b);
        assert ApplyAll(hs, [c[0]]) == Apply(hs, c[0]);
        ProgressTransitive(fs, hs, Apply(hs, c[0]), policies, removed, at);
      }
    }
  }

  /** Every listed file that exists holds a policy of that very name. */
  ghost predicate WellNamed(fs: Files, names: seq<string>) {
    forall n | n in names && PolicyPath(n) in fs ::
      HoldsPolicy(fs, PolicyPath(n)) && fs[PolicyPath(n)].content.policy.bundle.name == n
  }

  /** Then loading is file by file: the listed names whose file exists, each with its file. */
  lemma {:induction false} LoadWellNamed(fs: Files, names: seq<string>)
    requires WellNamed(fs, names)
    ensures forall n :: n in LoadNames(fs, names) <==> n in names && PolicyPath(n) in fs
    ensures forall n | n in LoadNames(fs, names) ::
              LoadNames(fs, names)[n] == Snap(fs[PolicyPath(n)].content.policy, fs[PolicyPath(n)].mtime)
  {
    if names != [] {
      var front, last := names[..|names| - 1], names[|names| - 1];
      assert last in names && forall n :: n in names <==> n in front || n == last;
      LoadWellNamed(fs, front);
    }
  }

  lemma {:induction false} LoadNamesFrame(fs: Files, gs: Files, names: seq<string>)
    requires forall n :: SameAt(fs, gs, PolicyPath(n))
    ensures LoadNames(fs, names) == LoadNames(gs, names)
  {
    if names != [] {
      LoadNamesFrame(fs, gs, names[..|names| - 1]);
      assert SameAt(fs, gs, PolicyPath(names[|names| - 1]));
    }
  }

  /** Temporary files, whole or torn, never reach a restart. */
  lemma TemporariesAreInvisible(fs: Files, gs: Files)
    requires SameButTemporaries(fs, gs)
    ensures Load(fs) == Load(gs) && LoadManifest(fs) == LoadManifest(gs) && LoadLegacy(fs) == LoadLegacy(gs)
  {
    assert SameAt(fs, gs, ManifestPath) && SameAt(fs, gs, LegacyPath);
    if HasManifest(fs) { LoadNamesFrame(fs, gs, fs[ManifestPath].content.names); }
  }

  /** Every policy file holds a policy of its own name, and the other files parse. */
  ghost predicate DiskOk(fs: Files) {
    && (forall n | PolicyPath(n) in fs ::
          fs[PolicyPath(n)].content.PolicyDoc? && fs[PolicyPath(n)].content.policy.bundle.name == n)
    && (ManifestPath in fs ==> HasManifest(fs))
    && (LegacyPath in fs ==> HoldsPolicy(fs, LegacyPath))
  }

  /** Crash consistency. Stop a persist anywhere before its manifest rename, with temporary
      files in any state. What a restart then loads has a name only if the old manifest lists
      it, and every listed name that had its file and is in the new payload; each body is the
      old one, as old as its file, or a new one of that name; the age of the whole is the age of
      its newest file; the primary is the old one or nobody, and never
      dangles. Only when no such name exists can the legacy file be loaded instead. */
  lemma CrashBeforeManifest(fs: Files, policies: seq<EdgePolicy>, primary: Option<string>,
                            removed: seq<string>, at: int, k: nat, gs: Files)
    requires DiskOk(fs) && HasManifest(fs)
    requires forall n | n in removed :: n !in Names(policies)
    requires k < |PersistOps(policies, primary, removed, at)|
    requires SameButTemporaries(ApplyAll(fs, PersistOps(policies, primary, removed, at)[..k]), gs)
    ensures DiskOk(gs) && LoadLegacy(gs) == LoadLegacy(fs)
    ensures LoadManifest(gs).None? ==>
              && Load(gs) == LoadLegacy(fs)
              && forall n | n in fs[ManifestPath].content.names && PolicyPath(n) in fs :: n !in Names(policies)
    ensures LoadManifest(gs).Some? ==>
              var was, now := fs[ManifestPath].content, LoadManifest(gs).value;
              && Load(gs) == LoadManifest(gs)
              && (forall n | n in was.names && PolicyPath(n) in fs && n in Names(policies) :: n in now.snapshots)
              && (forall n | n in now.snapshots :: n in was.names && now.snapshots[n].policy.bundle.name == n)
              && (forall n | n in now.snapshots ::
                    || (PolicyPath(n) in fs &&
                        now.snapshots[n] == Snap(fs[PolicyPath(n)].content.policy, fs[PolicyPath(n)].mtime))
                    || (now.snapshots[n].policy in policies && now.snapshots[n] == Snap(now.snapshots[n].policy, at)))
              && IsNewest(now.snapshots, now.lastSuccess)
              && now.primary == if was.primary.Some? && was.primary.value in now.snapshots then was.primary else None
  {
    var hs := ApplyAll(fs, PersistOps(policies, primary, removed, at)[..k]);
    PersistProgress(fs, policies, primary, removed, at, k);
    ProgressKeepsDiskOk(fs, hs, policies, removed, at);
    TemporariesAreInvisible(hs, gs);
    forall n | PolicyPath(n) in gs
      ensures gs[PolicyPath(n)].content.PolicyDoc? && gs[PolicyPath(n)].content.policy.bundle.name == n
    {
      assert SameAt(hs, gs, PolicyPath(n));
    }
    assert SameAt(hs, gs, ManifestPath) && SameAt(hs, gs, LegacyPath);
    var names := fs[ManifestPath].content.names;
    LoadWellNamed(hs, names);
    forall n | PolicyPath(n) in fs && n in Names(policies) ensures PolicyPath(n) in hs {
      assert SameAt(fs, hs, PolicyPath(n)) || HoldsOneOf(hs, n, policies, at);
    }
    forall n | n in LoadNames(hs, names)
      ensures (PolicyPath(n) in fs && hs[PolicyPath(n)] == fs[PolicyPath(n)])
              || (hs[PolicyPath(n)].content.policy in policies && hs[PolicyPath(n)].mtime == at)
    {
      assert SameAt(fs, hs, PolicyPath(n)) || HoldsOneOf(hs, n, policies, at);
    }
  }

  lemma ProgressKeepsDiskOk(fs: Files, gs: Files, policies: seq<EdgePolicy>, removed: seq<string>, at: int)
    requires DiskOk(fs) && Progress(fs, gs, policies, removed, at)
    ensures DiskOk(gs)
  {
    forall n | PolicyPath(n) in gs
      ensures gs[PolicyPath(n)].content.PolicyDoc? && gs[PolicyPath(n)].content.policy.bundle.name == n
    {
      assert SameAt(fs, gs, PolicyPath(n)) || HoldsOneOf(gs, n, policies, at);
    }
  }

  /** A file that a load may read a policy from. */
  predicate IsPolicyFile(path: Path) { path.PolicyPath? || path.LegacyPath? }

  /** Position x is the last in the list whose file holds a policy of this name. */
  ghost predicate IsLastLoaded(fs: Files, names: seq<string>, n: string, x: nat) {
    && x < |names| && PolicyPath(names[x]) in fs && fs[PolicyPath(names[x])].content.PolicyDoc?
    && fs[PolicyPath(names[x])].content.policy.bundle.name == n
    && forall y | x < y < |names| && PolicyPath(names[y]) in fs && fs[PolicyPath(names[y])].content.PolicyDoc? ::
         fs[PolicyPath(names[y])].content.policy.bundle.name != n
  }

  /** Whatever the files hold: a file that is missing or unreadable is skipped and stops nothing
      else, and a policy is loaded under the name it carries, the last of each name. */
  lemma {:induction false} LoadNamesExactly(fs: Files, names: seq<string>)
    ensures forall n :: n in LoadNames(fs, names) <==> exists x: nat :: IsLastLoaded(fs, names, n, x)
    ensures forall n, x: nat | IsLastLoaded(fs, names, n, x) ::
              n in LoadNames(fs, names) && LoadNames(fs, names)[n] ==
              Snapshot(fs[PolicyPath(names[x])].content.policy, CompileBundle(fs[PolicyPath(names[x])].content.policy),
                       fs[PolicyPath(names[x])].mtime)
  {
    hide CompileBundle;
    if names != [] {
      var last: nat := |names| - 1;
      var front, path := names[..last], PolicyPath(names[last]);
      LoadNamesExactly(fs, front);
      forall n, x: nat | x < last
        ensures IsLastLoaded(fs, names, n, x) <==>
                  IsLastLoaded(fs, front, n, x) && !(HoldsPolicy(fs, path) && fs[path].content.policy.bundle.name == n)
      {
        assert forall y | x < y < last :: names[y] == front[y];
      }
      forall n ensures IsLastLoaded(fs, names, n, last) <==> HoldsPolicy(fs, path) && fs[path].content.policy.bundle.name == n {
      }
      forall n | n in LoadNames(fs, names) ensures exists x: nat :: IsLastLoaded(fs, names, n, x) {
        if !(HoldsPolicy(fs, path) && fs[path].content.policy.bundle.name == n) {
          assert n in LoadNames(fs, front);
          var x: nat :| IsLastLoaded(fs, front, n, x);
          assert IsLastLoaded(fs, names, n, x);
        } else {
          assert IsLastLoaded(fs, names, n, last);
        }
      }
    }
  }

  /** What a restart makes of the files, case by case. */
  lemma LoadExactly(fs: Files)
    ensures var readable := ManifestPath in fs && fs[ManifestPath].content.ManifestDoc?;
            var names := if readable then fs[ManifestPath].content.names else [];
            var legacy := LegacyPath in fs && fs[LegacyPath].content.PolicyDoc?;
            && (LoadNames(fs, names) != map[] ==>
                  && Load(fs).Some? && Load(fs).value.snapshots == LoadNames(fs, names)
                  && IsNewest(Load(fs).value.snapshots, Load(fs).value.lastSuccess)
                  && Load(fs).value.primary ==
                     (var primary := fs[ManifestPath].content.primary;
                      if primary.Some? && primary.value in LoadNames(fs, names) then primary else None))
            && (LoadNames(fs, names) == map[] && legacy ==>
                  var p, at := fs[LegacyPath].content.policy, fs[LegacyPath].mtime;
                  Load(fs) == Some(Loaded(map[p.bundle.name := Snapshot(p, CompileBundle(p), at)], Some(p.bundle.name), at)))
            && (LoadNames(fs, names) == map[] && !legacy ==> Load(fs) == None)
  {
    hide CompileBundle;
    assert LoadNames(fs, []) == map[];
  }

  /** The snapshot is this file's policy, compiled, as old as the file. */
  ghost predicate ReadFrom(fs: Files, path: Path, snap: Snapshot) {
    IsPolicyFile(path) && HoldsPolicy(fs, path) && snap == Snap(fs[path].content.policy, fs[path].mtime)
  }

  lemma {:induction false} LoadNamesReads(fs: Files, names: seq<string>)
    ensures forall n | n in LoadNames(fs, names) ::
              exists k | k in names :: ReadFrom(fs, PolicyPath(k), LoadNames(fs, names)[n])
  {
    if names != [] {
      var front, last := names[..|names| - 1], names[|names| - 1];
      LoadNamesReads(fs, front);
      assert last in names && forall k | k in front :: k in names;
      if HoldsPolicy(fs, PolicyPath(last)) {
        assert ReadFrom(fs, PolicyPath(last), Snap(fs[PolicyPath(last)].content.policy, fs[PolicyPath(last)].mtime));
      }
    }
  }

  /** Whatever is on disk, every loaded snapshot is read from one file and is as old as it, and
      the load as a whole is as old as the newest of them. */
  lemma LoadReadsFiles(fs: Files)
    requires Load(fs).Some?
    ensures forall n | n in Load(fs).value.snapshots :: exists path :: ReadFrom(fs, path, Load(fs).value.snapshots[n])
    ensures IsNewest(Load(fs).value.snapshots, Load(fs).value.lastSuccess)
  {
    if LoadManifest(fs).Some? {
      LoadNamesReads(fs, fs[ManifestPath].content.names);
    } else {
      var l := LoadLegacy(fs).value;
      var n := fs[LegacyPath].content.policy.bundle.name;
      assert ReadFrom(fs, LegacyPath, l.snapshots[n]);
      assert n in l.snapshots && l.snapshots[n].refreshedAt == l.lastSuccess;
    }
  }

  /** With no readable manifest before, a persist cut short leaves the legacy file in charge. */
  lemma CrashWithoutManifest(fs: Files, policies: seq<EdgePolicy>, primary: Option<string>,
                             removed: seq<string>, at: int, k: nat, gs: Files)
    requires !HasManifest(fs)
    requires k < |PersistOps(policies, primary, removed, at)|
    requires SameButTemporaries(ApplyAll(fs, PersistOps(policies, primary, removed, at)[..k]), gs)
    ensures Load(gs) == LoadLegacy(fs)
  {
    var hs := ApplyAll(fs, PersistOps(policies, primary, removed, at)[..k]);
    PersistProgress(fs, policies, primary, removed, at, k);
    TemporariesAreInvisible(hs, gs);
  }

  // ---------------------------------------------------------------------------
  // A completed persist
  // ---------------------------------------------------------------------------

  lemma {:induction false} AfterPolicyOps(fs: Files, policies: seq<EdgePolicy>, at: int)
    ensures var gs := ApplyAll(fs, PolicyOps(policies, at));
            && (forall n | n in LastWins(policies) ::
                  PolicyPath(n) in gs && gs[PolicyPath(n)] == File(PolicyDoc(LastWins(policies)[n]), at))
            && (forall n | n !in LastWins(policies) :: SameAt(fs, gs, PolicyPath(n)))
            && SameAt(fs, gs, LegacyPath) && SameAt(fs, gs, ManifestPath)
    decreases |policies|
  {
    if policies != [] {
      var pair, rest := PolicyPair(policies[0], at), PolicyOps(policies[1..], at);
      var renamed := Apply(Apply(fs, pair[0]), pair[1]);
      assert (pair + rest)[1..] == [pair[1]] + rest && ([pair[1]] + rest)[1..] == rest;
      AfterPolicyOps(renamed, policies[1..], at);
      forall n | n !in LastWins(policies) ensures SameAt(fs, ApplyAll(renamed, rest), PolicyPath(n)) {
        assert SameAt(fs, renamed, PolicyPath(n)) && SameAt(renamed, ApplyAll(renamed, rest), PolicyPath(n));
      }
    }
  }

  lemma {:induction false} AfterUnlinkOps(fs: Files, names: seq<string>)
    ensures var gs := ApplyAll(fs, UnlinkOps(names));
            && (forall n | n in names :: PolicyPath(n) !in gs)
            && (forall path: Path | path !in fs :: path !in gs)
            && (forall n | n !in names :: SameAt(fs, gs, PolicyPath(n)))
            && SameAt(fs, gs, LegacyPath) && SameAt(fs, gs, ManifestPath)
  {
    if names != [] {
      var gone := Apply(fs, Unlink(PolicyPath(names[0])));
      assert UnlinkOps(names)[1..] == UnlinkOps(names[1..]);
      AfterUnlinkOps(gone, names[1..]);
      assert forall n :: n in names <==> n == names[0] || n in names[1..];
      assert PolicyPath(names[0]) !in gone;
      forall n | n !in names ensures SameAt(fs, ApplyAll(gone, UnlinkOps(names[1..])), PolicyPath(n)) {
        assert SameAt(fs, gone, PolicyPath(n));
      }
    }
  }

  /** Everything a completed persist leaves behind. */
  lemma AfterPersist(fs: Files, policies: seq<EdgePolicy>, primary: Option<string>, removed: seq<string>, at: int)
    requires forall n | n in removed :: n !in Names(policies)
    ensures var gs := ApplyAll(fs, PersistOps(policies, primary, removed, at));
            && ManifestPath in gs
            && gs[ManifestPath].content == ManifestDoc(primary, StableSort(Names(policies), StringLe))
            && SameAt(fs, gs, LegacyPath)
            && (forall n | n in LastWins(policies) ::
                  PolicyPath(n) in gs && gs[PolicyPath(n)] == File(PolicyDoc(LastWins(policies)[n]), at))
            && (forall n | n in removed :: PolicyPath(n) !in gs)
            && (forall n | n !in LastWins(policies) && PolicyPath(n) in gs :: PolicyPath(n) in fs)
  {
    hide ApplyAll, PolicyOps, UnlinkOps, LastWins;
    var a, b, c := PolicyOps(policies, at), UnlinkOps(removed), ManifestPair(policies, primary, at);
    ApplyConcat(fs, a + b, c);
    ApplyConcat(fs, a, b);
    var gs := ApplyAll(fs, a);
    var hs := ApplyAll(gs, b);
    AfterPolicyOps(fs, policies, at);
    AfterUnlinkOps(gs, removed);
    LastWinsNames(policies);
    forall n | n in LastWins(policies) ensures SameAt(gs, hs, PolicyPath(n)) { assert n !in removed; }
    ApplyPair(hs, c);
    forall n | n !in LastWins(policies) && PolicyPath(n) in hs ensures PolicyPath(n) in fs {
      assert SameAt(fs, gs, PolicyPath(n));
    }
  }

  lemma LastWinsNames(policies: seq<EdgePolicy>)
    ensures forall n :: n in LastWins(policies) <==> n in Names(policies)
    ensures forall n | n in LastWins(policies) :: LastWins(policies)[n].bundle.name == n
  {
    LastWinsIsLast(policies);
    forall n | n in LastWins(policies) ensures n in Names(policies) {
      var i: nat :| IsLastNamed(policies, n, i);
      assert Names(policies)[i] == n;
    }
    forall n | n in Names(policies) ensures n in LastWins(policies) {
      var i :| 0 <= i < |policies| && Names(policies)[i] == n;
      assert policies[i] in policies;
    }
  }

  /** The manifest of a completed persist lists the payload's names, each as often as it occurs,
      in the order of their text. */
  lemma ManifestIsSorted(fs: Files, policies: seq<EdgePolicy>, primary: Option<string>, removed: seq<string>, at: int)
    requires forall n | n in removed :: n !in Names(policies)
    ensures var gs := ApplyAll(fs, PersistOps(policies, primary, removed, at));
            && ManifestPath in gs && gs[ManifestPath].content.ManifestDoc? && gs[ManifestPath].content.primary == primary
            && multiset(gs[ManifestPath].content.names) == multiset(Names(policies))
            && Sorted(gs[ManifestPath].content.names, StringLe)
  {
    hide ApplyAll, PersistOps, StableSort, StringLe, LastWins;
    AfterPersist(fs, policies, primary, removed, at);
    SortElements(Names(policies), StringLe);
    TextOrderIsTotal();
    SortSorted(Names(policies), StringLe);
  }

  lemma TextOrderIsTotal()
    ensures TotalPreorder(StringLe)
  {
    forall s, t ensures StringLe(s, t) || StringLe(t, s) { TextsCompare(s, t); }
    forall s, t, u | StringLe(s, t) && StringLe(t, u) ensures StringLe(s, u) { TextsChain(s, t, u); }
  }

  lemma {:induction false} TextsCompare(s: string, t: string)
    ensures StringLe(s, t) || StringLe(t, s)
  {
    if s != "" && t != "" && s[0] == t[0] { TextsCompare(s[1..], t[1..]); }
  }

  lemma {:induction false} TextsChain(s: string, t: string, u: string)
    requires StringLe(s, t) && StringLe(t, u)
    ensures StringLe(s, u)
  {
    if s != "" && s[0] == t[0] && t[0] == u[0] { TextsChain(s[1..], t[1..], u[1..]); }
  }

  /** The disk round trip: after a completed persist of a non-empty payload, duplicates and
      all, a restart loads exactly the last policy of every name, compiled from that policy,
      with the same primary. */
  lemma PersistThenLoad(fs: Files, policies: seq<EdgePolicy>, primary: Option<string>,
                        removed: seq<string>, at: int)
    requires policies != []
    requires primary.Some? ==> primary.value in Names(policies)
    requires forall n | n in removed :: n !in Names(policies)
    ensures var gs := ApplyAll(fs, PersistOps(policies, primary, removed, at));
            && Load(gs) == LoadManifest(gs)
            && Load(gs) == Some(Loaded(map n | n in LastWins(policies) :: Snap(LastWins(policies)[n], at), primary, at))
  {
    hide ApplyAll, PersistOps, LastWins, StableSort, LoadNames, CompileBundle;
    var gs := ApplyAll(fs, PersistOps(policies, primary, removed, at));
    AfterPersist(fs, policies, primary, removed, at);
    LastWinsNames(policies);
    SortMembers(Names(policies), StringLe);
    LoadOfFiles(gs, StableSort(Names(policies), StringLe), LastWins(policies), at);
    var snapshots := LoadNames(gs, StableSort(Names(policies), StringLe));
    assert Names(policies)[0] in snapshots;
  }

  /** Loading names whose files hold these policies, all of one age. */
  lemma LoadOfFiles(fs: Files, names: seq<string>, policies: map<string, EdgePolicy>, at: int)
    requires forall n :: n in names <==> n in policies
    requires forall n | n in policies ::
               && PolicyPath(n) in fs && fs[PolicyPath(n)] == File(PolicyDoc(policies[n]), at)
               && policies[n].bundle.name == n
    ensures LoadNames(fs, names) == map n | n in policies :: Snap(policies[n], at)
  {
    hide Snap;
    LoadWellNamed(fs, names);
  }

  /** When every orphan could be removed, only files of the payload are left. */
  lemma NoOrphans(fs: Files, policies: seq<EdgePolicy>, primary: Option<string>, removed: seq<string>, at: int)
    requires forall n :: n in removed <==> PolicyPath(n) in fs && n !in Names(policies)
    ensures var gs := ApplyAll(fs, PersistOps(policies, primary, removed, at));
            forall n :: PolicyPath(n) in gs <==> n in Names(policies)
  {
    AfterPersist(fs, policies, primary, removed, at);
    LastWinsNames(policies);
  }

  lemma AfterLegacy(fs: Files, p: EdgePolicy, at: int)
    ensures var gs := ApplyAll(fs, LegacyOps(p, at));
            && SameButTemporaries(fs[LegacyPath := File(PolicyDoc(p), at)], gs)
  {
    var ops := LegacyOps(p, at);
    ApplyPair(fs, ops);
  }

  /** A singular persist goes to the legacy file only, so a restart still prefers whatever
      the manifest loads: it rebuilds the new policy exactly when no manifest loads, or the
      manifest already holds that policy alone as its primary. */
  lemma LegacyThenLoad(fs: Files, p: EdgePolicy, at: int)
    ensures var gs := ApplyAll(fs, LegacyOps(p, at));
            && Load(gs) == (if LoadManifest(fs).Some? then LoadManifest(fs)
                            else Some(Loaded(map[p.bundle.name := Snap(p, at)], Some(p.bundle.name), at)))
            && (Load(gs).Some? && Rebuilds(Load(gs).value, map[p.bundle.name := p], Some(p.bundle.name)) <==>
                  LoadManifest(fs).None? ||
                  Rebuilds(LoadManifest(fs).value, map[p.bundle.name := p], Some(p.bundle.name)))
  {
    var gs, hs := ApplyAll(fs, LegacyOps(p, at)), fs[LegacyPath := File(PolicyDoc(p), at)];
    AfterLegacy(fs, p, at);
    TemporariesAreInvisible(hs, gs);
    if HasManifest(fs) { LoadNamesFrame(fs, hs, fs[ManifestPath].content.names); }
  }

  /** The loaded map is this map of policies, compiled, with this primary. */
  ghost predicate Rebuilds(l: Loaded, policies: map<string, EdgePolicy>, primary: Option<string>) {
    && l.snapshots.Keys == policies.Keys && l.primary == primary
    && forall n | n in policies :: n in l.snapshots && l.snapshots[n] == Snap(policies[n], l.snapshots[n].refreshedAt)
  }

  /** So the upgrade is one-way: after any completed multi-policy persist, a later singular
      persist of a policy of another name is lost at the next restart. */
  lemma SingularAfterMultiIsLost(fs: Files, policies: seq<EdgePolicy>, primary: Option<string>,
                                 removed: seq<string>, at: int, p: EdgePolicy, later: int)
    requires policies != []
    requires primary.Some? ==> primary.value in Names(policies)
    requires forall n | n in removed :: n !in Names(policies)
    requires p.bundle.name !in Names(policies)
    ensures var gs := ApplyAll(ApplyAll(fs, PersistOps(policies, primary, removed, at)), LegacyOps(p, later));
            Load(gs).Some? && p.bundle.name !in Load(gs).value.snapshots
  {
    PersistThenLoad(fs, policies, primary, removed, at);
    LastWinsNames(policies);
    LegacyThenLoad(ApplyAll(fs, PersistOps(policies, primary, removed, at)), p, later);
  }

  lemma SnapsRebuild(policies: map<string, EdgePolicy>, primary: Option<string>, at: int)
    ensures Rebuilds(Loaded(map n | n in policies :: Snap(policies[n], at), primary, at), policies, primary)
  {
  }

  /** An empty payload leaves a manifest that lists nothing, and the legacy file untouched. */
  lemma PersistNothingThenLoad(fs: Files, primary: Option<string>, removed: seq<string>, at: int)
    ensures Load(ApplyAll(fs, PersistOps([], primary, removed, at))) == LoadLegacy(fs)
  {
    AfterPersist(fs, [], primary, removed, at);
    SortMembers(Names([]), StringLe);
    var gs := ApplyAll(fs, PersistOps([], primary, removed, at));
    assert gs[ManifestPath].content.names == [];
    assert LoadNames(gs, []) == map[];
  }

  /** A restart after a completed multi-policy persist rebuilds the payload's map exactly when
      the payload was not empty, or there is no legacy file to fall through to. */
  lemma RestartRebuildsPayload(fs: Files, policies: seq<EdgePolicy>, primary: Option<string>,
                               removed: seq<string>, at: int)
    requires primary.Some? ==> primary.value in Names(policies)
    requires forall n | n in removed :: n !in Names(policies)
    ensures var l := Load(ApplyAll(fs, PersistOps(policies, primary, removed, at)));
            (if l.None? then policies == [] else policies != [] && Rebuilds(l.value, LastWins(policies), primary))
            <==> policies != [] || LoadLegacy(fs).None?
  {
    hide Load, ApplyAll, PersistOps, LoadManifest, Rebuilds;
    if policies != [] {
      PersistThenLoad(fs, policies, primary, removed, at);
      SnapsRebuild(LastWins(policies), primary, at);
    } else {
      PersistNothingThenLoad(fs, primary, removed, at);
    }
  }

  // ---------------------------------------------------------------------------
  // Any history of persists, completed or cut short
  // ---------------------------------------------------------------------------

  datatype Persist =
    | Multi(policies: seq<EdgePolicy>, primary: Option<string>, removed: seq<string>, at: int, done: nat)
    | Singular(policy: EdgePolicy, at: int, done: nat)
  {
    function Ops(): seq<Op> {
      if Multi? then PersistOps(policies, primary, removed, at) else LegacyOps(policy, at)
    }

    ghost predicate Possible() {
      done <= |Ops()| && (Multi? ==> forall n | n in removed :: n !in Names(policies))
    }
  }

  ghost function History(fs: Files, persists: seq<Persist>): Files
    requires forall p | p in persists :: p.Possible()
  {
    if persists == [] then fs
    else
      var front, last := persists[..|persists| - 1], persists[|persists| - 1];
      assert last in persists && last.Possible() && forall p | p in front :: p in persists;
      ApplyAll(History(fs, front), last.Ops()[..last.done])
  }

  lemma OnePersistKeepsDiskOk(fs: Files, p: Persist)
    requires DiskOk(fs) && p.Possible()
    ensures DiskOk(ApplyAll(fs, p.Ops()[..p.done]))
  {
    match p
    case Multi(policies, primary, removed, at, done) =>
      if done < |p.Ops()| {
        PersistProgress(fs, policies, primary, removed, at, done);
        ProgressKeepsDiskOk(fs, ApplyAll(fs, p.Ops()[..done]), policies, removed, at);
      } else {
        assert p.Ops()[..done] == p.Ops();
        AfterPersist(fs, policies, primary, removed, at);
        LastWinsNames(policies);
        CompletedFilesAreNewOrOld(fs, policies, primary, removed, at);
      }
    case Singular(policy, at, done) =>
      var ops := p.Ops();
      if done == 1 { assert ops[..1] == [ops[0]] && ApplyAll(fs, [ops[0]]) == Apply(fs, ops[0]); }
      if done == 2 { assert ops[..2] == ops; ApplyPair(fs, ops); }
  }

  lemma CompletedFilesAreNewOrOld(fs: Files, policies: seq<EdgePolicy>, primary: Option<string>,
                                  removed: seq<string>, at: int)
    ensures var gs := ApplyAll(fs, PersistOps(policies, primary, removed, at));
            forall n | PolicyPath(n) in gs :: SameAt(fs, gs, PolicyPath(n)) || HoldsOneOf(gs, n, policies, at)
  {
    var ops := PersistOps(policies, primary, removed, at);
    var hs := ApplyAll(fs, ops[..|ops| - 1]);
    PersistProgress(fs, policies, primary, removed, at, |ops| - 1);
    assert ops == ops[..|ops| - 1] + [ops[|ops| - 1]];
    ApplyConcat(fs, ops[..|ops| - 1], [ops[|ops| - 1]]);
    assert ops[|ops| - 1] == Rename(ManifestTmp, ManifestPath);
    assert ApplyAll(hs, [ops[|ops| - 1]]) == Apply(hs, ops[|ops| - 1]);
  }

  function PoliciesOf(p: Persist): seq<EdgePolicy> { if p.Multi? then p.policies else [p.policy] }

  /** However far a persist gets, a policy file is as before or holds a policy of the payload,
      written then. */
  lemma PersistWritesPayload(fs: Files, p: Persist, path: Path)
    requires p.Possible()
    requires IsPolicyFile(path) && HoldsPolicy(ApplyAll(fs, p.Ops()[..p.done]), path)
    ensures var gs := ApplyAll(fs, p.Ops()[..p.done]);
            SameAt(fs, gs, path) || (gs[path].content.policy in PoliciesOf(p) && gs[path].mtime == p.at)
  {
    match p
    case Multi(policies, primary, removed, at, done) =>
      if done < |p.Ops()| {
        PersistProgress(fs, policies, primary, removed, at, done);
      } else {
        assert p.Ops()[..done] == p.Ops();
        CompletedFilesAreNewOrOld(fs, policies, primary, removed, at);
        AfterPersist(fs, policies, primary, removed, at);
      }
    case Singular(policy, at, done) =>
      var ops := p.Ops();
      if done == 1 { assert ops[..1] == [ops[0]] && ApplyAll(fs, [ops[0]]) == Apply(fs, ops[0]); }
      if done == 2 { assert ops[..2] == ops; ApplyPair(fs, ops); }
  }

  /** From an empty directory, every history of persists keeps the precondition of the crash
      theorem, so it applies to the next crash as well. */
  lemma {:induction false} HistoryKeepsDiskOk(fs: Files, persists: seq<Persist>)
    requires DiskOk(fs) && forall p | p in persists :: p.Possible()
    ensures DiskOk(History(fs, persists))
  {
    if persists != [] {
      var front, last := persists[..|persists| - 1], persists[|persists| - 1];
      assert last in persists && forall p | p in front :: p in persists;
      HistoryKeepsDiskOk(fs, front);
      OnePersistKeepsDiskOk(History(fs, front), last);
    }
  }
}
