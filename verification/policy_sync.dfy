/** Fetching policies and swapping them into the cache. */
module PolicySync {
  import opened Values
  import opened Bundle
  import opened PolicyDisk
  import opened PolicyCache
  import OAuth

  /** How a GET ends. The token is minted first, outside the handled exceptions; Failed is a
      transport error, a non-2xx status other than 404, or a body that is not JSON. */
  datatype Reply<T> = MintRaises | NotFound | Failed | Body(value: T)

  datatype PluralBody = Plural(policies: seq<EdgePolicy>, clients: seq<AuthorizedClient>)

  /** A fetch: an exception that is not handled, PolicyNotFound, PolicyFetchError, or a value. */
  datatype Fetch<T> = Raises | Missing | Broken | Fetched(value: T)

  datatype Payload = Payload(policies: seq<EdgePolicy>, primary: Option<string>, clients: seq<AuthorizedClient>)

  /** A body that does not validate is None. */
  function FetchOne(singular: Reply<Option<EdgePolicy>>): Fetch<EdgePolicy> {
    match singular
    case MintRaises => Raises
    case NotFound => Missing
    case Failed => Broken
    case Body(None) => Broken
    case Body(Some(p)) => Fetched(p)
  }

  /** The name of the first policy flagged as primary. */
  function FirstFlagged(policies: seq<EdgePolicy>): Option<string> {
    if policies == [] then None
    else if policies[0].isPrimary then Some(policies[0].bundle.name)
    else FirstFlagged(policies[1..])
  }

  ghost predicate IsFirstFlagged(policies: seq<EdgePolicy>, i: nat) {
    i < |policies| && policies[i].isPrimary && forall j | 0 <= j < i :: !policies[j].isPrimary
  }

  ghost predicate SomeFlagged(policies: seq<EdgePolicy>) { exists p | p in policies :: p.isPrimary }

  /** The primary is the first flagged policy, and nobody exactly when none is flagged. */
  lemma {:induction false} FirstFlaggedIsFirst(policies: seq<EdgePolicy>)
    ensures FirstFlagged(policies).None? <==> !SomeFlagged(policies)
    ensures FirstFlagged(policies).Some? ==>
              exists i: nat :: IsFirstFlagged(policies, i) && FirstFlagged(policies) == Some(policies[i].bundle.name)
  {
    if policies != [] {
      var rest := policies[1..];
      assert forall p | p in policies :: p == policies[0] || p in rest;
      if policies[0].isPrimary {
        assert policies[0] in policies && IsFirstFlagged(policies, 0);
      } else {
        FirstFlaggedIsFirst(rest);
        assert forall p | p in rest :: p in policies;
        if FirstFlagged(policies).Some? {
          var i: nat :| IsFirstFlagged(rest, i) && FirstFlagged(policies) == Some(rest[i].bundle.name);
          forall j | 0 <= j < i + 1 ensures !policies[j].isPrimary {
            if j > 0 { assert policies[j] == rest[j - 1]; }
          }
          assert IsFirstFlagged(policies, i + 1);
        }
      }
    }
  }

  /** The plural endpoint, or the singular one where the plural does not exist yet. */
  function FetchAll(plural: Reply<Option<PluralBody>>, singular: Reply<Option<EdgePolicy>>): Fetch<Payload> {
    match plural
    case MintRaises => Raises
    case Failed => Broken
    case Body(None) => Broken
    case Body(Some(body)) => Fetched(Payload(body.policies, FirstFlagged(body.policies), body.clients))
    case NotFound => Alone(FetchOne(singular))
  }

  /** A single fetched policy is the whole payload and its primary. */
  function Alone(f: Fetch<EdgePolicy>): Fetch<Payload> {
    match f
    case Raises => Raises
    case Missing => Missing
    case Broken => Broken
    case Fetched(p) => Fetched(Payload([p], Some(p.bundle.name), p.authorizedClients))
  }

  /** "No active policy" means that both endpoints said 404; an exception escapes only from a
      mint, of the second request too; and the singular endpoint is listened to only after a
      404 of the plural one. */
  lemma FetchAllFallsBackOnNotFound(plural: Reply<Option<PluralBody>>, singular: Reply<Option<EdgePolicy>>,
                                    other: Reply<Option<EdgePolicy>>)
    ensures FetchAll(plural, singular).Missing? <==> plural.NotFound? && singular.NotFound?
    ensures FetchAll(plural, singular).Raises? <==> plural.MintRaises? || (plural.NotFound? && singular.MintRaises?)
    ensures FetchAll(plural, singular).Fetched? <==>
              || (plural.Body? && plural.value.Some?)
              || (plural.NotFound? && singular.Body? && singular.value.Some?)
    ensures !plural.NotFound? ==> FetchAll(plural, singular) == FetchAll(plural, other)
    ensures plural.NotFound? && singular.Body? && singular.value.Some? ==>
              var p := singular.value.value;
              FetchAll(plural, singular).value == Payload([p], Some(p.bundle.name), p.authorizedClients)
  {
  }

  /** What one sync cycle is given: the mode, the replies, and the clock. */
  datatype Cycle = Cycle(
    multi: bool,
    plural: Reply<Option<PluralBody>>,
    singular: Reply<Option<EdgePolicy>>,
    now: int)
  {
    function Outcome(): Fetch<Payload> {
      if multi then FetchAll(plural, singular) else Alone(FetchOne(singular))
    }
  }

  datatype SyncResult = True | False | Raised

  ghost function AfterCycle(m: Memory, c: Cycle): Memory {
    match c.Outcome()
    case Fetched(payload) => Installed(payload.policies, payload.primary, c.now)
    case _ => m
  }

  /** The memory holds this one policy, compiled, under its own name, as the primary. */
  ghost predicate HoldsAlone(m: Memory, p: EdgePolicy, at: int) {
    && m.snapshots.Keys == {p.bundle.name} && m.snapshots[p.bundle.name] == Snapshot(p, CompileBundle(p), at)
    && m.primary == Some(p.bundle.name) && m.lastSuccess == Some(at)
  }

  /** A cycle in singular mode, reply by reply: a valid policy is installed alone, flagged or not;
      any other reply changes nothing; and the plural reply never matters. */
  lemma SingularCycle(m: Memory, c: Cycle, other: Reply<Option<PluralBody>>)
    requires !c.multi
    ensures c.singular.Body? && c.singular.value.Some? ==> HoldsAlone(AfterCycle(m, c), c.singular.value.value, c.now)
    ensures c.singular.Body? && c.singular.value.Some? ==>
              ClientsOf(AfterCycle(m, c)) == c.singular.value.value.authorizedClients
    ensures !(c.singular.Body? && c.singular.value.Some?) ==> AfterCycle(m, c) == m
    ensures AfterCycle(m, c) == AfterCycle(m, c.(plural := other))
  {
    hide CompileBundle, Installed;
    if c.singular.Body? && c.singular.value.Some? {
      InstalledAlone(c.singular.value.value, c.now);
    }
  }

  /** A cycle in multi-policy mode, reply by reply: a valid plural body is installed by name, the
      last policy of each; a 404 goes to the singular reply, as in singular mode; and anything
      else changes nothing. */
  lemma MultiCycle(m: Memory, c: Cycle)
    requires c.multi
    ensures c.plural.Body? && c.plural.value.Some? ==>
              var policies, after := c.plural.value.value.policies, AfterCycle(m, c);
              && (forall n :: n in after.snapshots <==> exists p | p in policies :: p.bundle.name == n)
              && (forall n | n in after.snapshots ::
                    exists k: nat :: IsLastNamed(policies, n, k) &&
                      after.snapshots[n] == Snapshot(policies[k], CompileBundle(policies[k]), c.now))
              && (after.primary.None? <==> forall p | p in policies :: !p.isPrimary)
              && (forall i: nat | IsFirstFlagged(policies, i) :: after.primary == Some(policies[i].bundle.name))
              && after.lastSuccess == Some(c.now)
    ensures c.plural.NotFound? ==> AfterCycle(m, c) == AfterCycle(m, c.(multi := false))
    ensures !c.plural.NotFound? && !(c.plural.Body? && c.plural.value.Some?) ==> AfterCycle(m, c) == m
  {
    hide CompileBundle;
    if c.plural.Body? && c.plural.value.Some? {
      var policies := c.plural.value.value.policies;
      LastWinsIsLast(policies);
      LastWinsNames(policies);
      FetchedPrimaryIsListed(c);
      FirstFlaggedIsFirst(policies);
    }
  }

  lemma InstalledAlone(p: EdgePolicy, at: int)
    ensures InstalledOne(p, at) == Installed([p], Some(p.bundle.name), at)
  {
    assert [p][1..] == [] && LastWins([]) == map[];
    assert LastWins([p]) == map[p.bundle.name := p];
  }

  /** What a cycle leaves on disk and reports. With nothing fetched the disk is untouched and
      the report is failure, or an exception exactly when a mint raised; with a payload, the
      operations of its persist are done as far as the disk goes, and the report is success
      exactly when it goes all the way. */
  ghost predicate Reported(c: Cycle, primary: Option<string>, fs: Files, budget: nat, gs: Files, left: nat,
                           written: int, r: SyncResult) {
    match c.Outcome()
    case Raises => r == Raised && gs == fs && left == budget
    case Missing => r == False && gs == fs && left == budget
    case Broken => r == False && gs == fs && left == budget
    case Fetched(payload) =>
      && r != Raised
      && (!c.multi ==> Went(fs, budget, LegacyOps(payload.policies[0], written), gs, left, r == True))
      && (c.multi ==>
            exists removed :: (forall n | n in removed :: n !in Names(payload.policies)) &&
              Went(fs, budget, PersistOps(payload.policies, primary, removed, written), gs, left, r == True))
  }

  /** What a report is worth, reply by reply. It is an exception exactly when a mint raised, and
      never success without a valid reply, in which case nothing was written. In singular mode
      success means that the legacy file now holds the policy. In multi-policy mode success of a
      payload that is not empty means that a restart would rebuild it: the last policy of each
      name, with the same primary. */
  lemma ReportedExactly(c: Cycle, primary: Option<string>, fs: Files, budget: nat, gs: Files, left: nat,
                        written: int, r: SyncResult)
    requires Reported(c, primary, fs, budget, gs, left, written, r)
    ensures var first := if c.multi then c.plural.MintRaises? else c.singular.MintRaises?;
            r == Raised <==> first || (c.multi && c.plural.NotFound? && c.singular.MintRaises?)
    ensures !(c.multi && c.plural.Body? && c.plural.value.Some?) &&
            !((!c.multi || c.plural.NotFound?) && c.singular.Body? && c.singular.value.Some?) ==>
              r != True && gs == fs && left == budget
    ensures !c.multi && c.singular.Body? && c.singular.value.Some? ==>
              && (r == True <==> budget >= 2)
              && (r == True ==> LegacyPath in gs && gs[LegacyPath] == File(PolicyDoc(c.singular.value.value), written))
    ensures c.multi && c.plural.Body? && c.plural.value.Some? && c.plural.value.value.policies != [] && r == True &&
            (primary.Some? ==> primary.value in Names(c.plural.value.value.policies)) ==>
              Load(gs) == Some(Loaded(Snaps(LastWins(c.plural.value.value.policies), written), primary, written))
  {
    hide ApplyAll, PersistOps, LoadManifest, LastWins, Load;
    if !c.multi && c.singular.Body? && c.singular.value.Some? {
      LegacyReport(c.singular.value.value, fs, budget, gs, left, written, r == True);
    }
    if c.multi && c.plural.Body? && c.plural.value.Some? && c.plural.value.value.policies != [] && r == True {
      var policies := c.plural.value.value.policies;
      var removed :| (forall n | n in removed :: n !in Names(policies)) &&
                     Went(fs, budget, PersistOps(policies, primary, removed, written), gs, left, true);
      if primary.Some? ==> primary.value in Names(policies) {
        PersistThenLoad(fs, policies, primary, removed, written);
      }
    }
  }

  lemma LegacyReport(p: EdgePolicy, fs: Files, budget: nat, gs: Files, left: nat, written: int, ok: bool)
    requires Went(fs, budget, LegacyOps(p, written), gs, left, ok)
    ensures ok <==> budget >= 2
    ensures ok ==> LegacyPath in gs && gs[LegacyPath] == File(PolicyDoc(p), written)
  {
    AfterLegacy(fs, p, written);
    assert SameAt(fs[LegacyPath := File(PolicyDoc(p), written)], ApplyAll(fs, LegacyOps(p, written)), LegacyPath);
  }

  /** One cycle. It reports success only if the fetch and the persist both succeed, but the
      memory changes whenever the fetch does. */
  method SyncOnce(cache: PolicyCache, disk: Disk, c: Cycle, written: int) returns (r: SyncResult)
    requires cache.Valid()
    modifies cache, disk
    ensures cache.Valid() && cache.Value() == AfterCycle(old(cache.Value()), c)
    ensures Reported(c, cache.Value().primary, old(disk.files), old(disk.remaining), disk.files, disk.remaining, written, r)
    ensures !c.multi && c.singular.Body? && c.singular.value.Some? ==>
              HoldsAlone(cache.Value(), c.singular.value.value, c.now) && r != Raised
    ensures !c.multi && !(c.singular.Body? && c.singular.value.Some?) ==>
              cache.Value() == old(cache.Value()) && disk.files == old(disk.files) && (r == Raised <==> c.singular.MintRaises?)
  {
    hide Went, PersistOps, LegacyOps, Coherent, Installed, InstalledOne, HoldsAlone;
    if !c.multi { SingularCycle(cache.Value(), c, c.plural); }
    if c.multi {
      match FetchAll(c.plural, c.singular)
      case Raises => return Raised;
      case Missing => return False;
      case Broken => return False;
      case Fetched(payload) =>
        var ok, removed := cache.ReplaceAll(payload.policies, payload.primary, c.now, disk, written);
        return if ok then True else False;
    } else {
      match FetchOne(c.singular)
      case Raises => return Raised;
      case Missing => return False;
      case Broken => return False;
      case Fetched(p) =>
        InstalledAlone(p, c.now);
        var ok := cache.Replace(p, c.now, disk, written);
        return if ok then True else False;
    }
  }

  /** The first cycle at startup; false means that it raises. It goes on exactly when the whole
      cycle succeeds, the persist included, or when it fails without raising, success is not
      required, and the cache is warm all the same: from disk, or from a payload that was
      fetched but not persisted. */
  method Warm(cache: PolicyCache, disk: Disk, c: Cycle, written: int, requireSuccess: bool)
    returns (ok: bool, ghost r: SyncResult)
    requires cache.Valid()
    modifies cache, disk
    ensures cache.Valid() && cache.Value() == AfterCycle(old(cache.Value()), c)
    ensures Reported(c, cache.Value().primary, old(disk.files), old(disk.remaining), disk.files, disk.remaining, written, r)
    ensures ok <==> r == True || (r == False && !requireSuccess && cache.snapshots != map[])
    ensures ok && cache.snapshots == map[] ==> c.Outcome().Fetched? && c.Outcome().value.policies == []
  {
    hide Went, PersistOps, LegacyOps, Coherent, Alone, FetchAll, FetchOne;
    var report := SyncOnce(cache, disk, c, written);
    r := report;
    ok := report == True || (report == False && !requireSuccess && cache.IsWarm());
    if ok && !cache.IsWarm() {
      var payload := c.Outcome().value;
      LastWinsNames(payload.policies);
      if payload.policies != [] {
        assert Names(payload.policies)[0] in LastWins(payload.policies);
      }
    }
  }

  // ---------------------------------------------------------------------------
  // The clients a plural payload leaves authorized
  // ---------------------------------------------------------------------------

  /** Policy k is the one that ends up as the primary: the last of those carrying the name of
      the first flagged policy. */
  ghost predicate EndsAsPrimary(policies: seq<EdgePolicy>, k: nat) {
    exists i: nat :: IsFirstFlagged(policies, i) && IsLastNamed(policies, policies[i].bundle.name, k)
  }

  lemma OnePrimary(policies: seq<EdgePolicy>) returns (k: nat)
    requires SomeFlagged(policies)
    ensures EndsAsPrimary(policies, k) && forall j: nat | EndsAsPrimary(policies, j) :: j == k
    ensures FirstFlagged(policies).Some? && FirstFlagged(policies).value in LastWins(policies)
    ensures LastWins(policies)[FirstFlagged(policies).value] == policies[k]
  {
    hide LastWins, FirstFlagged;
    FirstFlaggedIsFirst(policies);
    var i: nat :| IsFirstFlagged(policies, i) && FirstFlagged(policies) == Some(policies[i].bundle.name);
    LastWinsIsLast(policies);
    assert policies[i] in policies;
    k :| IsLastNamed(policies, policies[i].bundle.name, k) && LastWins(policies)[policies[i].bundle.name] == policies[k];
    forall j: nat | EndsAsPrimary(policies, j) ensures j == k { SamePrimary(policies, i, k, j); }
  }

  lemma SamePrimary(policies: seq<EdgePolicy>, i: nat, k: nat, j: nat)
    requires IsFirstFlagged(policies, i) && IsLastNamed(policies, policies[i].bundle.name, k)
    requires EndsAsPrimary(policies, j)
    ensures j == k
  {
    var i2: nat :| IsFirstFlagged(policies, i2) && IsLastNamed(policies, policies[i2].bundle.name, j);
    assert i2 == i;
  }

  /** Whatever the wrapper lists, the clients authorized after a plural payload are those of the
      policy that ends up as the primary, and none when no policy is flagged. */
  lemma ClientsAfterPlural(m: Memory, c: Cycle, body: PluralBody)
    requires c.multi && c.plural == Body(Some(body))
    ensures !SomeFlagged(body.policies) ==> ClientsOf(AfterCycle(m, c)) == []
    ensures SomeFlagged(body.policies) ==> exists k: nat :: EndsAsPrimary(body.policies, k)
    ensures forall k: nat | EndsAsPrimary(body.policies, k) ::
              ClientsOf(AfterCycle(m, c)) == body.policies[k].authorizedClients
  {
    FirstFlaggedIsFirst(body.policies);
    if SomeFlagged(body.policies) {
      var k := OnePrimary(body.policies);
    }
  }

  /** The wrapper's own list is what the policies say: that of the policy that ends up as the
      primary, or empty when no policy is flagged. */
  ghost predicate WrapperAgrees(body: PluralBody) {
    if SomeFlagged(body.policies) then
      exists k: nat :: EndsAsPrimary(body.policies, k) && body.policies[k].authorizedClients == body.clients
    else body.clients == []
  }

  /** The hoisted list is dropped, so it is honoured exactly when it repeats the policies'. */
  lemma HoistedClientsHonoured(m: Memory, c: Cycle, body: PluralBody)
    requires c.multi && c.plural == Body(Some(body))
    ensures ClientsOf(AfterCycle(m, c)) == body.clients <==> WrapperAgrees(body)
  {
    hide AfterCycle, ClientsOf, EndsAsPrimary;
    ClientsAfterPlural(m, c, body);
  }

  /** When clients are listed in the wrapper only, every token request is refused: 401, or 503
      when the payload was empty as well. */
  lemma WrapperOnlyIsRefused(m: Memory, c: Cycle, body: PluralBody, clientId: string, secret: string,
                             scope: string, accepts: (string, string) -> bool)
    requires c.multi && c.plural == Body(Some(body))
    requires forall p | p in body.policies :: p.authorizedClients == []
    ensures var now := AfterCycle(m, c);
            OAuth.Grant("client_credentials", clientId, secret, scope, now.snapshots != map[], ClientsOf(now), accepts)
            == OAuth.Denied(if body.policies == [] then 503 else 401)
  {
    hide AfterCycle, ClientsOf, EndsAsPrimary, SomeFlagged;
    ClientsAfterPlural(m, c, body);
    InstallsSomething(m, c, body);
    if k: nat :| EndsAsPrimary(body.policies, k) { LastNamedIsListed(body.policies, k); }
  }

  lemma LastNamedIsListed(policies: seq<EdgePolicy>, k: nat)
    requires EndsAsPrimary(policies, k)
    ensures k < |policies| && policies[k] in policies
  {
  }

  lemma InstallsSomething(m: Memory, c: Cycle, body: PluralBody)
    requires c.multi && c.plural == Body(Some(body))
    ensures AfterCycle(m, c).snapshots != map[] <==> body.policies != []
  {
    LastWinsNames(body.policies);
    if body.policies != [] {
      assert Names(body.policies)[0] in AfterCycle(m, c).snapshots;
    } else {
      assert LastWins([]) == map[];
    }
  }

  /** An input on which the drop shows: one flagged policy with an empty list, one client in
      the wrapper, and that client's own secret. */
  lemma WrapperClientIsRefused(m: Memory, p: EdgePolicy, client: AuthorizedClient, secret: string,
                               accepts: (string, string) -> bool, now: int)
    requires p.isPrimary && p.authorizedClients == [] && accepts(secret, client.clientSecretHash)
    ensures var body := Plural([p], [client]);
            var after := AfterCycle(m, Cycle(true, Body(Some(body)), NotFound, now));
            && !WrapperAgrees(body)
            && OAuth.Grant("client_credentials", client.clientId, secret, "", true, body.clients, accepts).Granted?
            && OAuth.Grant("client_credentials", client.clientId, secret, "", after.snapshots != map[], ClientsOf(after), accepts)
               == OAuth.Denied(401)
  {
    var body := Plural([p], [client]);
    assert p in body.policies;
    WrapperOnlyIsRefused(m, Cycle(true, Body(Some(body)), NotFound, now), body, client.clientId, secret, "", accepts);
    HoistedClientsHonoured(m, Cycle(true, Body(Some(body)), NotFound, now), body);
    ClientsAfterPlural(m, Cycle(true, Body(Some(body)), NotFound, now), body);
    var k := OnePrimary(body.policies);
    assert OAuth.Requested("") == [];
  }

  // ---------------------------------------------------------------------------
  // Any sequence of cycles
  // ---------------------------------------------------------------------------

  ghost function AfterCycles(m: Memory, cycles: seq<Cycle>): Memory {
    if cycles == [] then m
    else AfterCycle(AfterCycles(m, cycles[..|cycles| - 1]), cycles[|cycles| - 1])
  }

  /** The memory once a fetched payload has been swapped in. */
  ghost function Holding(c: Cycle): Memory
    requires c.Outcome().Fetched?
  {
    Installed(c.Outcome().value.policies, c.Outcome().value.primary, c.now)
  }

  ghost predicate IsLastFetch(cycles: seq<Cycle>, i: nat) {
    && i < |cycles| && cycles[i].Outcome().Fetched?
    && forall j | i < j < |cycles| :: !cycles[j].Outcome().Fetched?
  }

  lemma {:induction false} AfterCyclesIsLastFetch(m: Memory, cycles: seq<Cycle>)
    ensures (forall i | 0 <= i < |cycles| :: !cycles[i].Outcome().Fetched?) ==> AfterCycles(m, cycles) == m
    ensures forall i: nat | IsLastFetch(cycles, i) :: AfterCycles(m, cycles) == Holding(cycles[i])
  {
    hide Installed, Alone, FetchAll, FetchOne;
    if cycles != [] {
      var front, n := cycles[..|cycles| - 1], |cycles| - 1;
      AfterCyclesIsLastFetch(m, front);
      forall i: nat | IsLastFetch(cycles, i) ensures AfterCycles(m, cycles) == Holding(cycles[i]) {
        if i < n { assert IsLastFetch(front, i) && !cycles[n].Outcome().Fetched?; }
      }
    }
  }

  lemma FetchedPrimaryIsListed(c: Cycle)
    requires c.Outcome().Fetched?
    ensures var payload := c.Outcome().value;
            payload.primary.Some? ==> payload.primary.value in LastWins(payload.policies)
  {
    var payload := c.Outcome().value;
    LastWinsNames(payload.policies);
    if payload.primary.Some? {
      if c.multi && c.plural.Body? {
        FirstFlaggedIsFirst(payload.policies);
        var i :| 0 <= i < |payload.policies| && payload.primary == Some(payload.policies[i].bundle.name);
        assert Names(payload.policies)[i] == payload.primary.value;
      } else {
        assert Names(payload.policies)[0] == payload.primary.value;
      }
    }
  }

  /** The cache refines "the last fetched payload". After any sequence of cycles in either
      mode, whatever failed in between, it holds under each name of the last payload fetched
      the last policy of that name, compiled from that policy, and no other name; the primary
      is the payload's own. With no successful fetch nothing has changed. */
  lemma CacheIsLastFetch(m: Memory, cycles: seq<Cycle>)
    ensures (forall i | 0 <= i < |cycles| :: !cycles[i].Outcome().Fetched?) ==> AfterCycles(m, cycles) == m
    ensures forall i: nat | IsLastFetch(cycles, i) ::
              var payload, now := cycles[i].Outcome().value, AfterCycles(m, cycles);
              && (forall n :: n in now.snapshots <==> n in Names(payload.policies))
              && (forall n | n in now.snapshots ::
                    exists k: nat :: IsLastNamed(payload.policies, n, k)
                      && now.snapshots[n] == Snap(payload.policies[k], cycles[i].now))
              && now.primary == payload.primary && now.lastSuccess == Some(cycles[i].now)
  {
    AfterCyclesIsLastFetch(m, cycles);
    forall i: nat | IsLastFetch(cycles, i)
      ensures var payload, now := cycles[i].Outcome().value, AfterCycles(m, cycles);
              && (forall n :: n in now.snapshots <==> n in Names(payload.policies))
              && (forall n | n in now.snapshots ::
                    exists k: nat :: IsLastNamed(payload.policies, n, k)
                      && now.snapshots[n] == Snap(payload.policies[k], cycles[i].now))
              && now.primary == payload.primary && now.lastSuccess == Some(cycles[i].now)
    {
      var payload := cycles[i].Outcome().value;
      FetchedPrimaryIsListed(cycles[i]);
      LastWinsNames(payload.policies);
      LastWinsIsLast(payload.policies);
    }
  }
}
