/** Agent tokens: minting, verification and scopes, with the cryptography idealised. */
module OAuth {
  import opened Values
  import opened Text
  import opened Ordering
  import opened Bundle

  /** The text of a PEM file: an RSA private key, or something that does not load as one. */
  datatype Pem = Rsa(id: nat) | Junk(text: string)

  /** The public half of a private key. */
  datatype PublicKey = PublicKey(of: Pem)

  datatype Claims = Claims(issuer: string, sub: string, agentId: Option<string>, scope: string, iat: int, exp: int)

  /** A bearer token: claims under an ideal signature, or anything else. Anybody can present
      any token; only the holder of a key can have signed with it. */
  datatype Token = Signed(key: Pem, claims: Claims) | Gibberish

  datatype AgentTokenClaims = AgentTokenClaims(sub: string, agentId: Option<string>, scopes: seq<string>, exp: int, iat: int)

  const GOVERN_ENFORCE: string := "govern:enforce"

  /** None is the exception raised on a text that is no private key. */
  function DerivePublicKey(key: Pem): Option<PublicKey> {
    if key.Rsa? then Some(PublicKey(key)) else None
  }

  /** The token and its lifetime; `time` is the clock at the mint. */
  function MintAgentToken(clientId: string, agentId: Option<string>, granted: seq<string>,
                          ttl: int, key: Pem, issuer: string, time: real): (Token, int) {
    var now := time.Floor;
    (Signed(key, Claims(issuer, clientId, agentId, Join(granted, " "), now, now + ttl)), ttl)
  }

  /** Signature, issue time and expiry; None is InvalidToken. */
  function VerifyAgentToken(token: Token, key: PublicKey, time: real): Option<AgentTokenClaims> {
    if token.Signed? && token.key == key.of && token.claims.iat as real <= time && time < token.claims.exp as real then
      var c := token.claims;
      Some(AgentTokenClaims(c.sub, c.agentId, if c.scope != "" then Words(c.scope) else [], c.exp, c.iat))
    else None
  }

  function NarrowScopes(requested: seq<string>, allowed: seq<string>): seq<string> {
    Filter(requested, s => s in allowed)
  }

  function FindAuthorizedClient(clientId: string, authorized: seq<AuthorizedClient>): Option<AuthorizedClient> {
    if authorized == [] then None
    else if authorized[0].clientId == clientId then Some(authorized[0])
    else FindAuthorizedClient(clientId, authorized[1..])
  }

  /** The requested scopes as the endpoint reads them. */
  function Requested(scope: string): seq<string> { if scope != "" then Words(scope) else [] }

  datatype TokenReply = Issued(token: Token, expiresIn: int, scope: string) | Refused(status: nat)

  /** The token endpoint up to the key: who may have what. `accepts` is the password check. */
  function Grant(grantType: string, clientId: string, secret: string, scope: string,
                 warm: bool, authorized: seq<AuthorizedClient>, accepts: (string, string) -> bool)
    : Result
  {
    if grantType != "client_credentials" then Denied(400)
    else if !warm then Denied(503)
    else
      var found := FindAuthorizedClient(clientId, authorized);
      if found.None? || !accepts(secret, found.value.clientSecretHash) then Denied(401)
      else
        var granted := NarrowScopes(Requested(scope), found.value.allowedScopes);
        if Requested(scope) != [] && granted == [] then Denied(400) else Granted(found.value, granted)
  }

  datatype Result = Granted(client: AuthorizedClient, scopes: seq<string>) | Denied(status: nat)

  function IssueToken(grant: Result, key: Option<Pem>, ttl: int, tenantId: string, time: real): TokenReply {
    match grant
    case Denied(status) => Refused(status)
    case Granted(client, scopes) =>
      if key.None? then Refused(503)
      else
        var (token, expiresIn) :=
          MintAgentToken(client.clientId, client.agentId, scopes, ttl, key.value, "edge:" + tenantId, time);
        Issued(token, expiresIn, Join(scopes, " "))
  }

  /** The Authorization header, already taken apart. */
  datatype Header = NoBearer | EmptyBearer | Bearer(token: Token)

  datatype GateResult = Passed(claims: AgentTokenClaims) | Stopped(status: nat)

  /** The checks in front of a decision; no key means that enrollment is incomplete. */
  function RequireAgentToken(header: Header, key: Option<PublicKey>, time: real): GateResult {
    if !header.Bearer? then Stopped(401)
    else if key.None? then Stopped(503)
    else
      var claims := VerifyAgentToken(header.token, key.value, time);
      if claims.None? then Stopped(401)
      else if GOVERN_ENFORCE !in claims.value.scopes then Stopped(403)
      else Passed(claims.value)
  }

  /** The grant is the requested scopes that are allowed, in the order they were requested. */
  lemma NarrowScopesKeeps(requested: seq<string>, allowed: seq<string>) returns (keep: seq<nat>)
    ensures IsSelection(keep, |requested|) && NarrowScopes(requested, allowed) == Select(requested, keep)
    ensures forall i: nat | i < |requested| :: i in keep <==> requested[i] in allowed
    ensures forall s :: s in NarrowScopes(requested, allowed) <==> s in requested && s in allowed
  {
    keep := FilterSelects(requested, s => s in allowed);
    FilterMembers(requested, s => s in allowed);
  }

  /** The client found is the first registered under the id, and none is found exactly when
      none is registered. */
  lemma {:induction false} FindsFirst(clientId: string, authorized: seq<AuthorizedClient>)
    ensures var found := FindAuthorizedClient(clientId, authorized);
            && (found.None? <==> forall c | c in authorized :: c.clientId != clientId)
            && (found.Some? ==>
                  exists i :: 0 <= i < |authorized| && authorized[i] == found.value && found.value.clientId == clientId
                           && forall j | 0 <= j < i :: authorized[j].clientId != clientId)
  {
    if authorized != [] {
      var rest := authorized[1..];
      FindsFirst(clientId, rest);
      assert forall c :: c in authorized <==> c == authorized[0] || c in rest;
      if authorized[0].clientId != clientId && FindAuthorizedClient(clientId, rest).Some? {
        var i :| 0 <= i < |rest| && rest[i] == FindAuthorizedClient(clientId, rest).value
              && rest[i].clientId == clientId && forall j | 0 <= j < i :: rest[j].clientId != clientId;
        assert authorized[i + 1] == rest[i];
        forall j | 0 <= j < i + 1 ensures authorized[j].clientId != clientId {
          if j > 0 { assert authorized[j] == rest[j - 1]; }
        }
      }
    }
  }

  /** A token verifies under the matching key from its mint until just before its expiry, and
      what comes out is what went in: the same client and the same scopes in the same order. */
  lemma MintThenVerify(clientId: string, agentId: Option<string>, granted: seq<string>, ttl: int,
                       key: Pem, issuer: string, minted: real, time: real)
    requires key.Rsa? && minted <= time
    requires forall s | s in granted :: IsWord(s)
    ensures var token := MintAgentToken(clientId, agentId, granted, ttl, key, issuer, minted).0;
            var claims := VerifyAgentToken(token, DerivePublicKey(key).value, time);
            && (claims.Some? <==> time < (minted.Floor + ttl) as real)
            && (claims.Some? ==> claims.value == AgentTokenClaims(clientId, agentId, granted, minted.Floor + ttl, minted.Floor))
  {
    WordsOfJoin(granted);
    if granted != [] {
      assert granted[0] in granted && granted[0] <= Join(granted, " ");
    }
  }

  /** Who gets a token: on a warm cache, for the one grant type there is, the first client
      registered under the id whose secret checks out, and who asks for nothing or for at
      least one scope it may have. It gets what it asked for and may have. Everybody else gets
      the status of the first check that fails. */
  lemma GrantedExactly(grantType: string, clientId: string, secret: string, scope: string, warm: bool,
                       authorized: seq<AuthorizedClient>, accepts: (string, string) -> bool)
    ensures var found := FindAuthorizedClient(clientId, authorized);
            var grant := Grant(grantType, clientId, secret, scope, warm, authorized, accepts);
            && (grant.Granted? <==>
                  && grantType == "client_credentials" && warm
                  && found.Some? && accepts(secret, found.value.clientSecretHash)
                  && (Words(scope) == [] || exists s :: s in Words(scope) && s in found.value.allowedScopes))
            && (grant.Granted? ==> grant.client == found.value &&
                                   grant.scopes == NarrowScopes(Words(scope), found.value.allowedScopes))
            && (grantType != "client_credentials" ==> grant == Denied(400))
            && (grantType == "client_credentials" && !warm ==> grant == Denied(503))
            && (grantType == "client_credentials" && warm && (found.None? || !accepts(secret, found.value.clientSecretHash)) ==>
                  grant == Denied(401))
            && (grantType == "client_credentials" && warm && found.Some? && accepts(secret, found.value.clientSecretHash) ==>
                  grant.Granted? || grant == Denied(400))
  {
    assert Words("") == [];
    var found := FindAuthorizedClient(clientId, authorized);
    if found.Some? {
      var keep := NarrowScopesKeeps(Requested(scope), found.value.allowedScopes);
      var granted := NarrowScopes(Requested(scope), found.value.allowedScopes);
      if granted != [] { assert granted[0] in granted; }
    }
  }

  /** A refusal is passed on, and without a key there is no token. */
  lemma RefusedExactly(grant: Result, key: Option<Pem>, ttl: int, tenantId: string, time: real)
    ensures var issued := IssueToken(grant, key, ttl, tenantId, time);
            && (issued.Issued? <==> grant.Granted? && key.Some?)
            && (grant.Denied? ==> issued == Refused(grant.status))
            && (grant.Granted? && key.None? ==> issued == Refused(503))
            && (issued.Issued? ==>
                  && issued.token.Signed? && issued.token.key == key.value
                  && issued.token.claims.issuer == "edge:" + tenantId)
  {
  }

  /** Who passes the gate: a bearer of claims signed with this very key, in date, and with the
      enforcement scope among the words of their scope. Nobody without a bearer token, and no
      foreign, expired or unreadable token, gets further than 401; a good token without the
      scope gets 403; and while there is no key, a bearer gets 503. */
  lemma GatePassesExactly(header: Header, key: Option<PublicKey>, time: real)
    ensures var gate := RequireAgentToken(header, key, time);
            var verified := header.Bearer? && key.Some? && header.token.Signed? && header.token.key == key.value.of
                            && header.token.claims.iat as real <= time < header.token.claims.exp as real;
            && (gate.Passed? <==> verified && "govern:enforce" in Words(header.token.claims.scope))
            && (gate.Passed? ==>
                  var c := header.token.claims;
                  gate.claims == AgentTokenClaims(c.sub, c.agentId, Words(c.scope), c.exp, c.iat))
            && (!header.Bearer? ==> gate == Stopped(401))
            && (header.Bearer? && key.None? ==> gate == Stopped(503))
            && (header.Bearer? && key.Some? && !verified ==> gate == Stopped(401))
            && (verified && !gate.Passed? ==> gate == Stopped(403))
  {
    assert Words("") == [];
  }

  /** From request to decision: an issued token, presented before it expires, passes the gate
      exactly when govern:enforce was asked for and is allowed to the client. */
  lemma GateNeedsGovernEnforce(grant: Result, clientId: string, secret: string, scope: string, warm: bool,
                               authorized: seq<AuthorizedClient>, accepts: (string, string) -> bool,
                               key: Pem, ttl: int, tenantId: string, minted: real, time: real)
    requires grant == Grant("client_credentials", clientId, secret, scope, warm, authorized, accepts)
    requires key.Rsa? && minted <= time < (minted.Floor + ttl) as real
    requires IssueToken(grant, Some(key), ttl, tenantId, minted).Issued?
    ensures var issued := IssueToken(grant, Some(key), ttl, tenantId, minted);
            var gate := RequireAgentToken(Bearer(issued.token), DerivePublicKey(key), time);
            && grant.Granted? && issued.expiresIn == ttl
            && Words(issued.scope) == grant.scopes
            && (gate.Passed? <==> "govern:enforce" in Words(scope) && "govern:enforce" in grant.client.allowedScopes)
            && (gate.Passed? ==> gate.claims.sub == clientId && gate.claims.scopes == grant.scopes)
            && (!gate.Passed? ==> gate == Stopped(403))
  {
    var client := grant.client;
    FindsFirst(clientId, authorized);
    var keep := NarrowScopesKeeps(Requested(scope), client.allowedScopes);
    assert forall s | s in grant.scopes :: IsWord(s);
    MintThenVerify(client.clientId, client.agentId, grant.scopes, ttl, key, "edge:" + tenantId, minted, time);
    WordsOfJoin(grant.scopes);
  }
}
