/** The policy cache: an in-memory name map, kept with its image on disk. */
module PolicyCache {
  import opened Values
  import opened Text
  import opened Ordering
  import opened Compiler
  import opened Bundle
  import opened PolicyDisk

  /** The cache's fields as one value. */
  datatype Memory = Memory(snapshots: map<string, Snapshot>, primary: Option<string>, lastSuccess: Option<int>)

  const COLD: Memory := Memory(map[], None, None)

  ghost function Snaps(policies: map<string, EdgePolicy>, at: int): map<string, Snapshot> {
    map n | n in policies :: Snap(policies[n], at)
  }

  /** A primary that is not in the payload is cleared. */
  function ClearedPrimary(primary: Option<string>, names: set<string>): Option<string> {
    if primary.Some? && primary.value in names then primary else None
  }

  /** The memory after a whole payload has been swapped in. */
  ghost function Installed(policies: seq<EdgePolicy>, primary: Option<string>, at: int): Memory {
    Memory(Snaps(LastWins(policies), at), ClearedPrimary(primary, LastWins(policies).Keys), Some(at))
  }

  /** The memory after a single policy has been swapped in. */
  ghost function InstalledOne(p: EdgePolicy, at: int): Memory {
    Memory(map[p.bundle.name := Snap(p, at)], Some(p.bundle.name), Some(at))
  }

  ghost function Rehydrated(l: Loaded): Memory { Memory(l.snapshots, l.primary, Some(l.lastSuccess)) }

  /** The clients the primary policy authorizes; without a primary, none. */
  function ClientsOf(m: Memory): seq<AuthorizedClient> {
    if m.primary.Some? && m.primary.value in m.snapshots then m.snapshots[m.primary.value].policy.authorizedClients
    else []
  }

  /** Every snapshot is registered under its own name and is its policy's own compilation, the
      primary never dangles, and a warm cache knows when it was last refreshed. */
  ghost predicate Coherent(m: Memory) {
    && (forall n | n in m.snapshots ::
          && m.snapshots[n].policy.bundle.name == n
          && m.snapshots[n].compiled == CompileBundle(m.snapshots[n].policy))
    && (m.primary.Some? ==> m.primary.value in m.snapshots)
    && (m.snapshots != map[] ==> m.lastSuccess.Some?)
  }

  /** After any startup the clients are those of the primary the files give, and nobody without. */
  lemma ClientsAfterLoad(fs: Files)
    requires Load(fs).Some?
    ensures var l := Load(fs).value;
            ClientsOf(Rehydrated(l)) ==
            if l.primary.Some? && l.primary.value in l.snapshots then l.snapshots[l.primary.value].policy.authorizedClients
            else []
  {
  }

  lemma InstalledIsCoherent(policies: seq<EdgePolicy>, primary: Option<string>, at: int)
    ensures Coherent(Installed(policies, primary, at))
  {
    LastWinsNames(policies);
  }

  lemma {:induction false} LoadNamesCoherent(fs: Files, names: seq<string>)
    ensures forall n | n in LoadNames(fs, names) ::
              && LoadNames(fs, names)[n].policy.bundle.name == n
              && LoadNames(fs, names)[n].compiled == CompileBundle(LoadNames(fs, names)[n].policy)
  {
    if names != [] {
      LoadNamesCoherent(fs, names[..|names| - 1]);
    }
  }

  /** Whatever is on disk, even files under wrong names, a restart's memory is coherent. */
  lemma RehydratedIsCoherent(fs: Files)
    requires Load(fs).Some?
    ensures Coherent(Rehydrated(Load(fs).value))
  {
    if HasManifest(fs) { LoadNamesCoherent(fs, fs[ManifestPath].content.names); }
  }

  // ---------------------------------------------------------------------------
  // The state directory
  // ---------------------------------------------------------------------------

  /** The state directory: its files, how many more operations succeed before one raises, and
      the files that cannot be removed. */
  class Disk {
    var files: Files
    var remaining: nat
    const stuck: set<string>

    constructor (files: Files, remaining: nat, stuck: set<string>)
      ensures this.files == files && this.remaining == remaining && this.stuck == stuck
    {
      this.files, this.remaining, this.stuck := files, remaining, stuck;
    }

    method Do(op: Op) returns (ok: bool)
      modifies this
      ensures ok <==> old(remaining) > 0
      ensures if ok then files == Apply(old(files), op) && remaining == old(remaining) - 1
              else files == old(files) && remaining == 0
    {
      if remaining == 0 { return false; }
      files := Apply(files, op);
      remaining := remaining - 1;
      ok := true;
    }

    /** The policy files whose name is not in the payload and that can be removed. */
    function Orphans(current: set<string>): set<string>
      reads this
    {
      set path | path in files.Keys && path.PolicyPath? && path.name !in current && path.name !in stuck :: path.name
    }
  }

  /** The operations that get done before the disk stops. */
  function Done(ops: seq<Op>, remaining: nat): seq<Op> {
    if remaining < |ops| then ops[..remaining] else ops
  }

  /** From files fs and a budget, the operations were carried out as far as the budget went. */
  ghost predicate Went(fs: Files, budget: nat, ops: seq<Op>, gs: Files, left: int, ok: bool) {
    && gs == ApplyAll(fs, Done(ops, budget))
    && left == budget - |Done(ops, budget)|
    && (ok <==> budget >= |ops|)
  }

  /** Operations that stopped half-way stopped half-way through any longer sequence. */
  lemma StoppedGoes(fs: Files, budget: nat, a: seq<Op>, b: seq<Op>, gs: Files, left: int)
    requires Went(fs, budget, a, gs, left, false)
    ensures Went(fs, budget, a + b, gs, left, false)
  {
    assert (a + b)[..budget] == a[..budget];
  }

  /** One sequence carried out, then another. */
  lemma GoesOn(fs: Files, budget: nat, a: seq<Op>, gs: Files, mid: nat, b: seq<Op>, hs: Files, left: int, ok: bool)
    requires Went(fs, budget, a, gs, mid, true) && Went(gs, mid, b, hs, left, ok)
    ensures Went(fs, budget, a + b, hs, left, ok)
  {
    assert Done(a + b, budget) == a + Done(b, mid);
    ApplyConcat(fs, a, Done(b, mid));
  }

  lemma NothingGoes(fs: Files, budget: nat)
    ensures Went(fs, budget, [], fs, budget, true)
  {
  }

  /** Writes a file aside and renames it into place. */
  method WriteFile(disk: Disk, tmp: Path, target: Path, content: Content, at: int) returns (ok: bool)
    modifies disk
    ensures Went(old(disk.files), old(disk.remaining), [Write(tmp, content, at), Rename(tmp, target)],
                 disk.files, disk.remaining, ok)
  {
    ghost var ops, start := [Write(tmp, content, at), Rename(tmp, target)], disk.files;
    ok := disk.Do(Write(tmp, content, at));
    if !ok {
      assert ops[..0] == [];
      return;
    }
    assert ops[..1] == [ops[0]] && ApplyAll(start, [ops[0]]) == ApplyAll(Apply(start, ops[0]), []);
    ok := disk.Do(Rename(tmp, target));
    ApplyPair(start, ops);
  }

  method PersistLegacy(disk: Disk, p: EdgePolicy, at: int) returns (ok: bool)
    modifies disk
    ensures Went(old(disk.files), old(disk.remaining), LegacyOps(p, at), disk.files, disk.remaining, ok)
  {
    ok := WriteFile(disk, LegacyTmp, LegacyPath, PolicyDoc(p), at);
  }

  lemma NoPolicyOps(at: int)
    ensures PolicyOps([], at) == []
  {
  }

  lemma PairIs(p: EdgePolicy, at: int)
    ensures PolicyPair(p, at) ==
            [Write(PolicyTmp(p.bundle.name), PolicyDoc(p), at), Rename(PolicyTmp(p.bundle.name), PolicyPath(p.bundle.name))]
  {
  }

  method WritePolicies(disk: Disk, policies: seq<EdgePolicy>, at: int) returns (ok: bool)
    modifies disk
    ensures Went(old(disk.files), old(disk.remaining), PolicyOps(policies, at), disk.files, disk.remaining, ok)
  {
    hide Went, ApplyAll, PolicyOps, PolicyPair;
    ghost var start, budget := disk.files, disk.remaining;
    NothingGoes(start, budget);
    NoPolicyOps(at);
    for i := 0 to |policies|
      invariant Went(start, budget, PolicyOps(policies[..i], at), disk.files, disk.remaining, true)
    {
      var p := policies[i];
      ghost var gs, mid, before := disk.files, disk.remaining, PolicyOps(policies[..i], at);
      assert policies[..i + 1] == policies[..i] + [p];
      PolicyOpsSnoc(policies[..i], p, at);
      PairIs(p, at);
      ok := WriteFile(disk, PolicyTmp(p.bundle.name), PolicyPath(p.bundle.name), PolicyDoc(p), at);
      GoesOn(start, budget, before, gs, mid, PolicyPair(p, at), disk.files, disk.remaining, ok);
      if !ok {
        PolicyOpsPrefix(policies, i + 1, at);
        ghost var now, all := PolicyOps(policies[..i + 1], at), PolicyOps(policies, at);
        StoppedGoes(start, budget, now, all[|now|..], disk.files, disk.remaining);
        assert now + all[|now|..] == all;
        return;
      }
    }
    assert policies[..|policies|] == policies;
    ok := true;
  }

  /** Removes the files of every name that is not current, in whatever order they come. */
  method RemoveOrphans(disk: Disk, current: set<string>) returns (ok: bool, ghost removed: seq<string>)
    modifies disk
    ensures Went(old(disk.files), old(disk.remaining), UnlinkOps(removed), disk.files, disk.remaining, ok)
    ensures forall n | n in removed :: n in old(disk.Orphans(current))
    ensures ok ==> forall n | n in old(disk.Orphans(current)) :: n in removed
  {
    ghost var start, budget := disk.files, disk.remaining;
    var todo := disk.Orphans(current);
    ghost var orphans := todo;
    removed := [];
    NothingGoes(start, budget);
    while todo != {}
      invariant forall n :: n in orphans <==> n in todo || n in removed
      invariant Went(start, budget, UnlinkOps(removed), disk.files, disk.remaining, true)
      decreases todo
    {
      var n :| n in todo;
      ghost var gs, mid, op := disk.files, disk.remaining, [Unlink(PolicyPath(n))];
      assert UnlinkOps(removed + [n]) == UnlinkOps(removed) + op;
      ok := disk.Do(Unlink(PolicyPath(n)));
      assert ApplyAll(gs, op) == ApplyAll(Apply(gs, op[0]), []) && op[..0] == [];
      GoesOn(start, budget, UnlinkOps(removed), gs, mid, op, disk.files, disk.remaining, ok);
      removed := removed + [n];
      if !ok { return; }
      todo := todo - {n};
    }
    ok := true;
  }

  /** Writes every policy file, removes orphans, then writes the manifest. If the disk stops
      half-way, what was done is exactly the operations up to there. */
  method PersistManifest(disk: Disk, policies: seq<EdgePolicy>, primary: Option<string>, at: int)
    returns (ok: bool, ghost removed: seq<string>)
    modifies disk
    ensures forall n | n in removed :: n !in Names(policies)
    ensures Went(old(disk.files), old(disk.remaining), PersistOps(policies, primary, removed, at),
                 disk.files, disk.remaining, ok)
    ensures ok ==> forall n :: n in removed <==>
              PolicyPath(n) in old(disk.files) && n !in Names(policies) && n !in disk.stuck
  {
    hide Went, ApplyAll;
    ghost var start, budget := disk.files, disk.remaining;
    ghost var a, c := PolicyOps(policies, at), ManifestPair(policies, primary, at);
    removed := [];
    ok := WritePolicies(disk, policies, at);
    ghost var gs, mid := disk.files, disk.remaining;
    if !ok {
      StoppedGoes(start, budget, a, UnlinkOps([]) + c, gs, mid);
      assert a + (UnlinkOps([]) + c) == PersistOps(policies, primary, [], at);
      return;
    }
    WholeWent(start, budget, a, gs, mid);
    var current := set n | n in Names(policies);
    OrphansAre(disk, start, policies, at, current);
    ok, removed := RemoveOrphans(disk, current);
    ghost var hs, late := disk.files, disk.remaining;
    GoesOn(start, budget, a, gs, mid, UnlinkOps(removed), hs, late, ok);
    if !ok {
      StoppedGoes(start, budget, a + UnlinkOps(removed), c, hs, late);
      return;
    }
    ok := WriteFile(disk, ManifestTmp, ManifestPath, ManifestDoc(primary, StableSort(Names(policies), StringLe)), at);
    GoesOn(start, budget, a + UnlinkOps(removed), hs, late, c, disk.files, disk.remaining, ok);
  }

  lemma WholeWent(fs: Files, budget: nat, ops: seq<Op>, gs: Files, left: int)
    requires Went(fs, budget, ops, gs, left, true)
    ensures gs == ApplyAll(fs, ops)
  {
  }

  /** After the policy writes the orphans are the old files of names not in the payload. */
  lemma OrphansAre(disk: Disk, start: Files, policies: seq<EdgePolicy>, at: int, current: set<string>)
    requires disk.files == ApplyAll(start, PolicyOps(policies, at))
    requires forall n :: n in current <==> n in Names(policies)
    ensures forall n :: n in disk.Orphans(current) <==>
              PolicyPath(n) in start && n !in Names(policies) && n !in disk.stuck
  {
    AfterPolicyOps(start, policies, at);
    LastWinsNames(policies);
    forall n
      ensures n in disk.Orphans(current) <==> PolicyPath(n) in start && n !in Names(policies) && n !in disk.stuck
    {
      if n !in Names(policies) { assert SameAt(start, disk.files, PolicyPath(n)); }
      assert PolicyPath(n) in disk.files ==> PolicyPath(n).name == n;
    }
  }

  lemma SnapsOfNothing(at: int)
    ensures Snaps(LastWins([]), at) == map[] && Snaps(map[], at) == map[]
  {
  }

  lemma SnapsSnoc(policies: seq<EdgePolicy>, p: EdgePolicy, at: int)
    ensures Snaps(LastWins(policies + [p]), at) == Snaps(LastWins(policies), at)[p.bundle.name := Snap(p, at)]
  {
    hide Snap;
    LastWinsSnoc(policies, p);
  }

  /** One compiled snapshot per name; a later policy of the same name replaces an earlier. */
  method BuildSnapshots(policies: seq<EdgePolicy>, at: int) returns (built: map<string, Snapshot>)
    ensures built == Snaps(LastWins(policies), at)
  {
    hide Compile, Snaps;
    built := map[];
    SnapsOfNothing(at);
    for i := 0 to |policies|
      invariant built == Snaps(LastWins(policies[..i]), at)
    {
      var p := policies[i];
      var compiled := CompilePolicy(p.id, p.bundle.name, p.bundle.version, p.bundle.rules, Some(p.bundle.frameworkTags));
      built := built[p.bundle.name := Snapshot(p, compiled, at)];
      assert policies[..i + 1] == policies[..i] + [p];
      SnapsSnoc(policies[..i], p, at);
    }
    assert policies[..|policies|] == policies;
  }

  // ---------------------------------------------------------------------------
  // The cache
  // ---------------------------------------------------------------------------

  class PolicyCache {
    var snapshots: map<string, Snapshot>
    var primary: Option<string>
    var lastSuccess: Option<int>

    function Value(): Memory
      reads this
    {
      Memory(snapshots, primary, lastSuccess)
    }

    ghost predicate Valid()
      reads this
    {
      Coherent(Value())
    }

    constructor ()
      ensures Valid() && Value() == COLD
    {
      snapshots, primary, lastSuccess := map[], None, None;
    }

    function IsWarm(): bool
      reads this
    {
      snapshots != map[]
    }

    function CompiledByName(name: string): Option<CompiledPolicy>
      reads this
    {
      if name in snapshots then Some(snapshots[name].compiled) else None
    }

    function PrimaryCompiled(): Option<CompiledPolicy>
      reads this
    {
      if primary.None? then None else CompiledByName(primary.value)
    }

    /** The singular swap: the policy is the only one and the primary. The memory has changed
        even when the disk fails. */
    method Replace(p: EdgePolicy, at: int, disk: Disk?, written: int) returns (ok: bool)
      modifies this, if disk == null then {} else {disk}
      ensures Valid() && Value() == InstalledOne(p, at)
      ensures if disk == null then ok
              else Went(old(disk.files), old(disk.remaining), LegacyOps(p, written), disk.files, disk.remaining, ok)
    {
      var compiled := CompilePolicy(p.id, p.bundle.name, p.bundle.version, p.bundle.rules, Some(p.bundle.frameworkTags));
      snapshots := map[p.bundle.name := Snapshot(p, compiled, at)];
      primary := Some(p.bundle.name);
      lastSuccess := Some(at);
      ok := true;
      if disk != null {
        ok := PersistLegacy(disk, p, written);
      }
    }

    /** The swap of a whole payload: the new map is built aside, then put in place at once. */
    method ReplaceAll(policies: seq<EdgePolicy>, primaryName: Option<string>, at: int, disk: Disk?, written: int)
      returns (ok: bool, ghost removed: seq<string>)
      modifies this, if disk == null then {} else {disk}
      ensures Valid() && Value() == Installed(policies, primaryName, at)
      ensures forall n | n in removed :: n !in Names(policies)
      ensures if disk == null then ok
              else Went(old(disk.files), old(disk.remaining), PersistOps(policies, Value().primary, removed, written),
                        disk.files, disk.remaining, ok)
      ensures ok && disk != null ==> forall n :: n in removed <==>
                PolicyPath(n) in old(disk.files) && n !in Names(policies) && n !in disk.stuck
    {
      hide Went, PersistOps, LastWins, CompileBundle;
      var built := BuildSnapshots(policies, at);
      var kept := primaryName;
      if primaryName.Some? && primaryName.value !in built {
        kept := None;
      }
      InstalledIsCoherent(policies, primaryName, at);
      snapshots, primary, lastSuccess := built, kept, Some(at);
      ok, removed := true, [];
      if disk != null {
        ok, removed := PersistManifest(disk, policies, kept, written);
      }
    }

    /** Rehydrates from disk at startup: the manifest if it loads, else the legacy file. */
    method LoadFromDisk(disk: Disk) returns (hit: bool)
      requires Valid()
      modifies this
      ensures Valid() && (hit <==> Load(disk.files).Some?)
      ensures Value() == if hit then Rehydrated(Load(disk.files).value) else old(Value())
    {
      if Load(disk.files).Some? { RehydratedIsCoherent(disk.files); }
      hit := LoadManifestFile(disk);
      if !hit {
        hit := LoadLegacyFile(disk);
      }
    }

    method LoadManifestFile(disk: Disk) returns (hit: bool)
      modifies this
      ensures hit <==> LoadManifest(disk.files).Some?
      ensures Value() == if hit then Rehydrated(LoadManifest(disk.files).value) else old(Value())
    {
      if ManifestPath !in disk.files || !disk.files[ManifestPath].content.ManifestDoc? {
        return false;
      }
      var names, primaryName := disk.files[ManifestPath].content.names, disk.files[ManifestPath].content.primary;
      var loaded: map<string, Snapshot> := map[];
      for i := 0 to |names|
        invariant loaded == LoadNames(disk.files, names[..i])
        invariant Value() == old(Value())
      {
        assert names[..i + 1][..i] == names[..i];
        var path := PolicyPath(names[i]);
        if path !in disk.files || !disk.files[path].content.PolicyDoc? {
          continue;
        }
        var p := disk.files[path].content.policy;
        var compiled := CompilePolicy(p.id, p.bundle.name, p.bundle.version, p.bundle.rules, Some(p.bundle.frameworkTags));
        loaded := loaded[p.bundle.name := Snapshot(p, compiled, disk.files[path].mtime)];
      }
      assert names[..|names|] == names;
      if loaded == map[] {
        return false;
      }
      if primaryName.Some? && primaryName.value !in loaded {
        primaryName := None;
      }
      var newest := NewestOf(loaded);
      snapshots, primary, lastSuccess := loaded, primaryName, Some(newest);
      hit := true;
    }

    method LoadLegacyFile(disk: Disk) returns (hit: bool)
      modifies this
      ensures hit <==> LoadLegacy(disk.files).Some?
      ensures Value() == if hit then Rehydrated(LoadLegacy(disk.files).value) else old(Value())
    {
      if LegacyPath !in disk.files || !disk.files[LegacyPath].content.PolicyDoc? {
        return false;
      }
      var p, mtime := disk.files[LegacyPath].content.policy, disk.files[LegacyPath].mtime;
      var compiled := CompilePolicy(p.id, p.bundle.name, p.bundle.version, p.bundle.rules, Some(p.bundle.frameworkTags));
      snapshots := map[p.bundle.name := Snapshot(p, compiled, mtime)];
      primary := Some(p.bundle.name);
      lastSuccess := Some(mtime);
      hit := true;
    }
  }

  /** max(s.refreshed_at for s in snapshots.values()) */
  method NewestOf(snapshots: map<string, Snapshot>) returns (at: int)
    requires snapshots != map[]
    ensures at == Newest(snapshots)
  {
    var first :| first in snapshots;
    at := snapshots[first].refreshedAt;
    var todo := snapshots.Keys - {first};
    while todo != {}
      invariant todo <= snapshots.Keys
      invariant exists n :: n in snapshots && snapshots[n].refreshedAt == at
      invariant forall n | n in snapshots && n !in todo :: snapshots[n].refreshedAt <= at
      decreases todo
    {
      var n :| n in todo;
      if snapshots[n].refreshedAt > at {
        at := snapshots[n].refreshedAt;
      }
      todo := todo - {n};
    }
    assert IsNewest(snapshots, at);
  }
}
