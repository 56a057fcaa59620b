/** The wire models of a policy and of the clients it authorizes. */
module Bundle {
  import opened Values
  import opened Compiler

  datatype PolicyBundle = PolicyBundle(
    name: string,
    version: string,
    description: string,
    rules: seq<RawRule>,
    frameworkTags: seq<string>)

  datatype AuthorizedClient = AuthorizedClient(
    clientId: string,
    clientName: string,
    clientSecretHash: string,
    allowedScopes: seq<string>,
    agentId: Option<string>)

  datatype EdgePolicy = EdgePolicy(
    id: string,
    tenantId: string,
    name: string,
    version: string,
    bundle: PolicyBundle,
    isActive: bool,
    isPrimary: bool,
    createdAt: string,
    authorizedClients: seq<AuthorizedClient>)

  ghost function CompileBundle(p: EdgePolicy): CompiledPolicy {
    Compile(p.id, p.bundle.name, p.bundle.version, p.bundle.rules, p.bundle.frameworkTags)
  }

  lemma CompiledBundleIs(p: EdgePolicy)
    ensures var c := CompileBundle(p);
            && c.policyId == p.id && c.name == p.bundle.name && c.version == p.bundle.version
            && c.frameworkTags == p.bundle.frameworkTags
  {
  }

  /** The policies by name; of several with one name, the last. */
  function LastWins(policies: seq<EdgePolicy>): map<string, EdgePolicy> {
    if policies == [] then map[]
    else map[policies[0].bundle.name := policies[0]] + LastWins(policies[1..])
  }

  ghost predicate IsLastNamed(policies: seq<EdgePolicy>, name: string, i: nat) {
    && i < |policies| && policies[i].bundle.name == name
    && forall j | i < j < |policies| :: policies[j].bundle.name != name
  }

  /** The name map holds exactly the names of the list, each with its last policy. */
  lemma {:induction false} LastWinsIsLast(policies: seq<EdgePolicy>)
    ensures forall p | p in policies :: p.bundle.name in LastWins(policies)
    ensures forall n | n in LastWins(policies) ::
              exists i: nat :: IsLastNamed(policies, n, i) && LastWins(policies)[n] == policies[i]
  {
    if policies != [] {
      var rest := policies[1..];
      LastWinsIsLast(rest);
      assert forall p | p in policies :: p == policies[0] || p in rest;
      forall n | n in LastWins(policies)
        ensures exists i: nat :: IsLastNamed(policies, n, i) && LastWins(policies)[n] == policies[i]
      {
        if n in LastWins(rest) {
          var i: nat :| IsLastNamed(rest, n, i) && LastWins(rest)[n] == rest[i];
          forall j | i + 1 < j < |policies| ensures policies[j].bundle.name != n {
            assert policies[j] == rest[j - 1];
          }
          assert IsLastNamed(policies, n, i + 1);
        } else {
          forall j | 0 < j < |policies| ensures policies[j].bundle.name != n {
            assert policies[j] == rest[j - 1] && rest[j - 1] in rest;
          }
          assert IsLastNamed(policies, n, 0);
        }
      }
    }
  }

  lemma {:induction false} LastWinsSnoc(policies: seq<EdgePolicy>, p: EdgePolicy)
    ensures LastWins(policies + [p]) == LastWins(policies)[p.bundle.name := p]
  {
    if policies == [] {
      assert policies + [p] == [p];
    } else {
      assert (policies + [p])[1..] == policies[1..] + [p];
      LastWinsSnoc(policies[1..], p);
    }
  }
}
