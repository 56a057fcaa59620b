/** How old the loaded policies are: when they are all of one age, and which persists, cut where,
    leave them of different ages. */
module PolicyAge {
  import opened Values
  import opened Text
  import opened Ordering
  import opened Bundle
  import opened PolicyDisk

  /** The manifest lists the name, and its file holds a policy. */
  predicate Listed(fs: Files, n: string) {
    HasManifest(fs) && n in fs[ManifestPath].content.names && HoldsPolicy(fs, PolicyPath(n))
  }

  /** The listed files were all last written at one time. */
  ghost predicate OneAge(fs: Files) {
    forall a, b | Listed(fs, a) && Listed(fs, b) :: fs[PolicyPath(a)].mtime == fs[PolicyPath(b)].mtime
  }

  /** Each loaded policy is as old as the load as a whole counts. */
  ghost predicate AgesAgree(l: Loaded) {
    forall n | n in l.snapshots :: l.snapshots[n].refreshedAt == l.lastSuccess
  }

  /** Listed files of one age make a load of one age, whatever else is on disk. */
  lemma OneAgeLoads(fs: Files)
    requires OneAge(fs) && Load(fs).Some?
    ensures AgesAgree(Load(fs).value)
  {
    hide LoadNames, Snap;
    if LoadManifest(fs).Some? {
      var l, names := LoadManifest(fs).value, fs[ManifestPath].content.names;
      LoadNamesReads(fs, names);
      var m :| m in l.snapshots && l.snapshots[m].refreshedAt == l.lastSuccess;
      var a :| a in names && ReadFrom(fs, PolicyPath(a), l.snapshots[m]);
      forall n | n in l.snapshots ensures l.snapshots[n].refreshedAt == l.lastSuccess {
        var b :| b in names && ReadFrom(fs, PolicyPath(b), l.snapshots[n]);
        assert Listed(fs, a) && Listed(fs, b);
        SnapAge(fs, PolicyPath(a), l.snapshots[m]);
        SnapAge(fs, PolicyPath(b), l.snapshots[n]);
      }
    } else {
      LegacyAge(fs);
    }
  }

  lemma SnapAge(fs: Files, path: Path, snap: Snapshot)
    requires ReadFrom(fs, path, snap)
    ensures snap.refreshedAt == fs[path].mtime
  {
  }

  lemma LegacyAge(fs: Files)
    requires LoadLegacy(fs).Some?
    ensures AgesAgree(LoadLegacy(fs).value)
  {
  }

  /** On a disk that persists left, it is exact: the loaded ages agree if and only if the listed
      files are of one age. */
  lemma AgesAgreeExactly(fs: Files)
    requires DiskOk(fs) && LoadManifest(fs).Some?
    ensures AgesAgree(LoadManifest(fs).value) <==> OneAge(fs)
  {
    var l, names := LoadManifest(fs).value, fs[ManifestPath].content.names;
    LoadWellNamed(fs, names);
    if AgesAgree(l) {
      forall a, b | Listed(fs, a) && Listed(fs, b) ensures fs[PolicyPath(a)].mtime == fs[PolicyPath(b)].mtime {
        assert a in l.snapshots && b in l.snapshots;
      }
    }
    if OneAge(fs) { OneAgeLoads(fs); }
  }

  // ---------------------------------------------------------------------------
  // What keeps the listed files of one age
  // ---------------------------------------------------------------------------

  /** Files that differ at most in what no manifest lists. */
  lemma SameListingKeepsAge(fs: Files, gs: Files)
    requires OneAge(fs) && SameAt(fs, gs, ManifestPath) && forall n :: SameAt(fs, gs, PolicyPath(n))
    ensures OneAge(gs)
  {
    forall a, b | Listed(gs, a) && Listed(gs, b) ensures gs[PolicyPath(a)].mtime == gs[PolicyPath(b)].mtime {
      assert SameAt(fs, gs, PolicyPath(a)) && SameAt(fs, gs, PolicyPath(b));
      assert Listed(fs, a) && Listed(fs, b);
    }
  }

  lemma TemporariesKeepAge(fs: Files, gs: Files)
    requires OneAge(fs) && SameButTemporaries(fs, gs)
    ensures OneAge(gs)
  {
    assert SameAt(fs, gs, ManifestPath);
    forall n ensures SameAt(fs, gs, PolicyPath(n)) { assert !PolicyPath(n).IsTemporary(); }
    SameListingKeepsAge(fs, gs);
  }

  lemma WholePersistHasOneAge(fs: Files, policies: seq<EdgePolicy>, primary: Option<string>, removed: seq<string>, at: int)
    requires forall n | n in removed :: n !in Names(policies)
    ensures OneAge(ApplyAll(fs, PersistOps(policies, primary, removed, at)))
  {
    hide ApplyAll, PersistOps, StableSort, LastWins;
    AfterPersist(fs, policies, primary, removed, at);
    SortMembers(Names(policies), StringLe);
    LastWinsNames(policies);
    var gs := ApplyAll(fs, PersistOps(policies, primary, removed, at));
    forall a | Listed(gs, a) ensures gs[PolicyPath(a)].mtime == at {
      assert a in LastWins(policies);
    }
  }

  /** A singular persist, cut or whole, and a multi-policy persist carried out to its end. */
  lemma PersistKeepsAge(fs: Files, p: Persist)
    requires OneAge(fs) && p.Possible() && (p.Multi? ==> p.done == |p.Ops()|)
    ensures OneAge(ApplyAll(fs, p.Ops()[..p.done]))
  {
    var ops := p.Ops();
    match p
    case Multi(policies, primary, removed, at, done) =>
      assert ops[..done] == ops;
      WholePersistHasOneAge(fs, policies, primary, removed, at);
    case Singular(policy, at, done) =>
      if done == 1 { assert ops[..1] == [ops[0]] && ApplyAll(fs, [ops[0]]) == Apply(fs, ops[0]); }
      if done == 2 { assert ops[..2] == ops; ApplyPair(fs, ops); }
      SameListingKeepsAge(fs, ApplyAll(fs, ops[..done]));
  }

  // ---------------------------------------------------------------------------
  // Which cuts make the ages differ
  // ---------------------------------------------------------------------------

  /** How many policy files the first k operations of a persist have renamed into place, and how
      many orphans they have removed. */
  function Renames(policies: seq<EdgePolicy>, k: nat): (i: nat)
    ensures i <= |policies|
  {
    if k / 2 <= |policies| then k / 2 else |policies|
  }

  function Unlinks(policies: seq<EdgePolicy>, removed: seq<string>, k: nat): (i: nat)
    ensures i <= |removed|
  {
    if k <= 2 * |policies| then 0
    else if k - 2 * |policies| <= |removed| then k - 2 * |policies| else |removed|
  }

  lemma {:induction false} PolicyOpsCut(policies: seq<EdgePolicy>, at: int, k: nat)
    requires k <= 2 * |policies|
    ensures |PolicyOps(policies, at)| == 2 * |policies|
    ensures PolicyOps(policies, at)[..k] ==
            PolicyOps(policies[..k / 2], at) +
            if k % 2 == 0 then []
            else [Write(PolicyTmp(policies[k / 2].bundle.name), PolicyDoc(policies[k / 2]), at)]
  {
    if policies == [] {
    } else if k < 2 {
      PolicyOpsCut(policies[1..], at, 0);
      assert policies[..0] == [] && PolicyOps([], at) == [];
    } else {
      PolicyOpsCut(policies[1..], at, k - 2);
      var i := k / 2;
      assert (k - 2) / 2 == i - 1 && (k - 2) % 2 == k % 2;
      assert policies[..i][1..] == policies[1..][..i - 1];
      assert PolicyOps(policies[..i], at) == PolicyPair(policies[0], at) + PolicyOps(policies[1..][..i - 1], at);
      assert PolicyOps(policies, at)[..k] == PolicyPair(policies[0], at) + PolicyOps(policies[1..], at)[..k - 2];
      if k % 2 == 1 { assert policies[1..][i - 1] == policies[i]; }
    }
  }

  lemma OneMoreTemporary(fs: Files, path: Path, content: Content, at: int)
    requires path.IsTemporary()
    ensures SameButTemporaries(fs, ApplyAll(fs, [Write(path, content, at)]))
  {
    var op := Write(path, content, at);
    assert ApplyAll(fs, [op]) == ApplyAll(Apply(fs, op), [op][1..]);
  }

  /** The files after a cut are those of the renames and unlinks that got done. */
  lemma CutIsRenamesAndUnlinks(fs: Files, policies: seq<EdgePolicy>, primary: Option<string>, removed: seq<string>,
                               at: int, k: nat)
    requires k < |PersistOps(policies, primary, removed, at)|
    ensures SameButTemporaries(
              ApplyAll(ApplyAll(fs, PolicyOps(policies[..Renames(policies, k)], at)),
                       UnlinkOps(removed[..Unlinks(policies, removed, k)])),
              ApplyAll(fs, PersistOps(policies, primary, removed, at)[..k]))
  {
    hide ApplyAll, PolicyOps;
    var a, b, c := PolicyOps(policies, at), UnlinkOps(removed), ManifestPair(policies, primary, at);
    var ops, i, m := a + b + c, Renames(policies, k), Unlinks(policies, removed, k);
    PolicyOpsCut(policies, at, if k <= 2 * |policies| then k else 2 * |policies|);
    var gs := ApplyAll(fs, PolicyOps(policies[..i], at));
    if k <= 2 * |policies| {
      assert UnlinkOps(removed[..0]) == [];
      NoOps(gs);
      if k % 2 == 0 {
        assert ops[..k] == a[..k] == PolicyOps(policies[..i], at) + [] == PolicyOps(policies[..i], at);
      } else {
        var w := Write(PolicyTmp(policies[i].bundle.name), PolicyDoc(policies[i]), at);
        assert ops[..k] == a[..k] == PolicyOps(policies[..i], at) + [w];
        ApplyConcat(fs, PolicyOps(policies[..i], at), [w]);
        OneMoreTemporary(gs, w.path, w.content, at);
      }
    } else {
      assert policies[..i] == policies && a[..|a|] == a;
      assert UnlinkOps(removed[..m]) == b[..m];
      ApplyConcat(fs, a, b[..m]);
      if k <= |a| + |b| {
        assert ops[..k] == a + b[..m];
      } else {
        assert b[..m] == b && ops[..k] == (a + b) + [c[0]];
        ApplyConcat(fs, a + b, [c[0]]);
        OneMoreTemporary(ApplyAll(gs, b), ManifestTmp, c[0].content, at);
      }
    }
  }

  lemma NoOps(fs: Files)
    ensures ApplyAll(fs, []) == fs
  {
  }

  /** File by file: renewed, removed, or as it was. */
  lemma CutFiles(fs: Files, policies: seq<EdgePolicy>, primary: Option<string>, removed: seq<string>, at: int, k: nat)
    requires forall n | n in removed :: n !in Names(policies)
    requires k < |PersistOps(policies, primary, removed, at)|
    ensures var gs := ApplyAll(fs, PersistOps(policies, primary, removed, at)[..k]);
            var renewed, gone := Names(policies[..Renames(policies, k)]), removed[..Unlinks(policies, removed, k)];
            && SameAt(fs, gs, ManifestPath)
            && (forall n | n in renewed :: HoldsPolicy(gs, PolicyPath(n)) && gs[PolicyPath(n)].mtime == at)
            && (forall n | n in gone :: PolicyPath(n) !in gs)
            && (forall n | n !in renewed && n !in gone :: SameAt(fs, gs, PolicyPath(n)))
  {
    hide ApplyAll, PersistOps, PolicyOps, UnlinkOps, LastWins, Renames, Unlinks;
    var front, gone := policies[..Renames(policies, k)], removed[..Unlinks(policies, removed, k)];
    var hs := ApplyAll(fs, PolicyOps(front, at));
    var mid, gs := ApplyAll(hs, UnlinkOps(gone)), ApplyAll(fs, PersistOps(policies, primary, removed, at)[..k]);
    CutIsRenamesAndUnlinks(fs, policies, primary, removed, at, k);
    AfterPolicyOps(fs, front, at);
    AfterUnlinkOps(hs, gone);
    LastWinsNames(front);
    assert SameAt(mid, gs, ManifestPath);
    forall n ensures SameAt(mid, gs, PolicyPath(n)) { assert !PolicyPath(n).IsTemporary(); }
    forall n | n in Names(front) ensures n !in gone {
      var x :| 0 <= x < |front| && Names(front)[x] == n;
      assert Names(policies)[x] == n && n !in removed;
      assert forall g | g in gone :: g in removed;
    }
    forall n | n in Names(front) ensures HoldsPolicy(gs, PolicyPath(n)) && gs[PolicyPath(n)].mtime == at {
      assert n in LastWins(front) && SameAt(hs, mid, PolicyPath(n)) && SameAt(mid, gs, PolicyPath(n));
    }
    forall n | n in gone ensures PolicyPath(n) !in gs { assert SameAt(mid, gs, PolicyPath(n)); }
    forall n | n !in Names(front) && n !in gone ensures SameAt(fs, gs, PolicyPath(n)) {
      assert SameAt(fs, hs, PolicyPath(n)) && SameAt(hs, mid, PolicyPath(n)) && SameAt(mid, gs, PolicyPath(n));
    }
  }

  /** Which cuts do it. From a disk whose listed files are of one age, and older than the
      persist, a cut leaves listed files of different ages exactly when it has renewed a listed
      file, and has left another one, that was there, neither renewed nor removed. */
  lemma CutsThatSplitAges(fs: Files, policies: seq<EdgePolicy>, primary: Option<string>, removed: seq<string>,
                          at: int, k: nat)
    requires HasManifest(fs) && OneAge(fs)
    requires forall n | Listed(fs, n) :: fs[PolicyPath(n)].mtime < at
    requires forall n | n in removed :: n !in Names(policies)
    requires k < |PersistOps(policies, primary, removed, at)|
    ensures var renewed, gone := Names(policies[..Renames(policies, k)]), removed[..Unlinks(policies, removed, k)];
            !OneAge(ApplyAll(fs, PersistOps(policies, primary, removed, at)[..k])) <==>
              && (exists a :: a in fs[ManifestPath].content.names && a in renewed)
              && (exists b :: Listed(fs, b) && b !in renewed && b !in gone)
  {
    hide ApplyAll, PersistOps, Names, Renames, Unlinks;
    var gs := ApplyAll(fs, PersistOps(policies, primary, removed, at)[..k]);
    var renewed, gone := Names(policies[..Renames(policies, k)]), removed[..Unlinks(policies, removed, k)];
    CutFiles(fs, policies, primary, removed, at, k);
    if a :| a in fs[ManifestPath].content.names && a in renewed {
      if b :| Listed(fs, b) && b !in renewed && b !in gone {
        assert SameAt(fs, gs, PolicyPath(b)) && Listed(gs, a) && Listed(gs, b);
      } else {
        forall n | Listed(gs, n) ensures gs[PolicyPath(n)].mtime == at {
          assert n in renewed || n in gone || SameAt(fs, gs, PolicyPath(n));
          assert n in renewed || n in gone || Listed(fs, n);
        }
      }
    } else {
      forall n | Listed(gs, n) ensures Listed(fs, n) && gs[PolicyPath(n)].mtime == fs[PolicyPath(n)].mtime {
        assert n !in renewed && n !in gone && SameAt(fs, gs, PolicyPath(n));
      }
    }
  }

  /** What a cut persist does to ages. It has renamed its first policy file and no more: a
      restart loads a listed policy of another name with its old body, last written when its
      file was, and takes the whole to be as fresh as the new file. */
  lemma CutPersistHidesAge(fs: Files, policies: seq<EdgePolicy>, primary: Option<string>,
                           removed: seq<string>, at: int, a: string)
    requires DiskOk(fs) && HasManifest(fs) && policies != []
    requires forall n | n in removed :: n !in Names(policies)
    requires a in fs[ManifestPath].content.names && PolicyPath(a) in fs && a != policies[0].bundle.name
    requires policies[0].bundle.name in fs[ManifestPath].content.names
    requires forall n | PolicyPath(n) in fs :: fs[PolicyPath(n)].mtime <= at
    ensures var ops := PersistOps(policies, primary, removed, at);
            var gs := ApplyAll(fs, ops[..2]);
            && 2 < |ops| && Load(gs).Some? && Load(gs).value.lastSuccess == at
            && a in Load(gs).value.snapshots
            && Load(gs).value.snapshots[a] == Snap(fs[PolicyPath(a)].content.policy, fs[PolicyPath(a)].mtime)
  {
    hide ApplyAll, PersistOps;
    var ops, pair, b := PersistOps(policies, primary, removed, at), PolicyPair(policies[0], at), policies[0].bundle.name;
    PersistStarts(policies, primary, removed, at);
    var gs := ApplyAll(fs, ops[..2]);
    ApplyPair(fs, pair);
    PersistProgress(fs, policies, primary, removed, at, 2);
    ProgressKeepsDiskOk(fs, gs, policies, removed, at);
    LoadWellNamed(gs, fs[ManifestPath].content.names);
    var now := LoadManifest(gs).value;
    assert PolicyPath(b) in gs && now.snapshots[b] == Snap(policies[0], at);
    forall n | n in now.snapshots ensures now.snapshots[n].refreshedAt <= at {
      assert SameAt(fs, gs, PolicyPath(n)) || HoldsOneOf(gs, n, policies, at);
    }
  }

  lemma PersistStarts(policies: seq<EdgePolicy>, primary: Option<string>, removed: seq<string>, at: int)
    requires policies != []
    ensures var ops := PersistOps(policies, primary, removed, at);
            |ops| > 2 && ops[..2] == PolicyPair(policies[0], at)
  {
    var pair := PolicyPair(policies[0], at);
    assert PolicyOps(policies, at) == pair + PolicyOps(policies[1..], at);
  }
}
