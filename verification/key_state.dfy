/** The signing key pair of a process, while the key file changes under it. */
module KeyState {
  import opened Values
  import opened Text
  import opened Bundle
  import opened OAuth

  /** What the two routes share: the cached pair, and the key file. */
  datatype Keys = Keys(privateKey: Option<Pem>, publicKey: Option<PublicKey>, file: Option<Pem>)

  /** A load that raises: no key file, or a text that is no key. */
  datatype Load<T> = Loaded(value: T) | EnrollmentMissing | BadKey

  /** Reads the file and, if it holds a key, caches the pair. */
  function LoadPair(k: Keys): (Keys, Load<(Pem, PublicKey)>) {
    if k.file.None? then (k, EnrollmentMissing)
    else
      var derived := DerivePublicKey(k.file.value);
      if derived.None? then (k, BadKey)
      else (Keys(k.file, derived, k.file), Loaded((k.file.value, derived.value)))
  }

  /** The token endpoint asks for both halves. */
  function PairForMint(k: Keys): (Keys, Load<(Pem, PublicKey)>) {
    if k.privateKey.Some? && k.publicKey.Some? then (k, Loaded((k.privateKey.value, k.publicKey.value)))
    else LoadPair(k)
  }

  /** The decide route looks for the public half only. */
  function KeyForVerify(k: Keys): (Keys, Load<PublicKey>) {
    if k.publicKey.Some? then (k, Loaded(k.publicKey.value))
    else
      var (k', pair) := LoadPair(k);
      (k', match pair
           case Loaded(p) => Loaded(p.1)
           case EnrollmentMissing => EnrollmentMissing
           case BadKey => BadKey)
  }

  /** The gate in front of a decision: the header is looked at before the key is loaded. A key
      file that holds no key is an exception the route does not handle. */
  function Gate(k: Keys, header: Header, time: real): (Keys, GateResult) {
    if !header.Bearer? then (k, Stopped(401))
    else
      var (k', key) := KeyForVerify(k);
      (k', if key.BadKey? then Stopped(500)
           else RequireAgentToken(header, if key.Loaded? then Some(key.value) else None, time))
  }

  /** Without a bearer token the key is not even looked for. With one and without a cached key the
      gate depends on the key file: none means that enrollment is not
      complete, and a file that holds no key stops every bearer. A cached key is used whatever
      the file holds. */
  lemma GateWithoutKey(k: Keys, header: Header, time: real)
    ensures !header.Bearer? ==> Gate(k, header, time) == (k, Stopped(401))
    ensures header.Bearer? && k.publicKey.None? && k.file.None? ==> Gate(k, header, time) == (k, Stopped(503))
    ensures header.Bearer? && k.publicKey.None? && k.file.Some? && !k.file.value.Rsa? ==> Gate(k, header, time) == (k, Stopped(500))
    ensures header.Bearer? && k.publicKey.None? && k.file.Some? && k.file.value.Rsa? ==>
              var key := PublicKey(k.file.value);
              Gate(k, header, time) == (Keys(k.file, Some(key), k.file), RequireAgentToken(header, Some(key), time))
    ensures header.Bearer? && k.publicKey.Some? ==> Gate(k, header, time) == (k, RequireAgentToken(header, k.publicKey, time))
  {
  }

  class AppState {
    var privateKey: Option<Pem>
    var publicKey: Option<PublicKey>
    var keyFile: Option<Pem>

    function Value(): Keys
      reads this
    {
      Keys(privateKey, publicKey, keyFile)
    }

    constructor (keyFile: Option<Pem>)
      ensures Value() == Keys(None, None, keyFile)
    {
      privateKey, publicKey, this.keyFile := None, None, keyFile;
    }

    method KeyState() returns (pair: Load<(Pem, PublicKey)>)
      modifies this
      ensures (Value(), pair) == PairForMint(old(Value()))
    {
      if privateKey.Some? && publicKey.Some? {
        return Loaded((privateKey.value, publicKey.value));
      }
      if keyFile.None? { return EnrollmentMissing; }
      var derived := DerivePublicKey(keyFile.value);
      if derived.None? { return BadKey; }
      privateKey := keyFile;
      publicKey := derived;
      pair := Loaded((keyFile.value, derived.value));
    }

    method PublicKeyForDecide() returns (key: Load<PublicKey>)
      modifies this
      ensures (Value(), key) == KeyForVerify(old(Value()))
    {
      if publicKey.Some? {
        return Loaded(publicKey.value);
      }
      if keyFile.None? { return EnrollmentMissing; }
      var derived := DerivePublicKey(keyFile.value);
      if derived.None? { return BadKey; }
      privateKey := keyFile;
      publicKey := derived;
      key := Loaded(derived.value);
    }

    method PassGate(header: Header, time: real) returns (gate: GateResult)
      modifies this
      ensures (Value(), gate) == Gate(old(Value()), header, time)
    {
      if !header.Bearer? { return Stopped(401); }
      var key := PublicKeyForDecide();
      if key.BadKey? { return Stopped(500); }
      if key.EnrollmentMissing? { return Stopped(503); }
      gate := RequireAgentToken(header, Some(key.value), time);
    }
  }

  /** What happens within one process: either route asks for the key, or the key file is
      overwritten or removed, as a rotation does. */
  datatype Step = Mint | Verify | Overwrite(file: Option<Pem>)

  function Exec(k: Keys, step: Step): Keys {
    match step
    case Mint => PairForMint(k).0
    case Verify => KeyForVerify(k).0
    case Overwrite(file) => k.(file := file)
  }

  function Run(k: Keys, steps: seq<Step>): Keys {
    if steps == [] then k else Exec(Run(k, steps[..|steps| - 1]), steps[|steps| - 1])
  }

  /** Nothing is cached, or a key and its own public half. */
  ghost predicate Paired(k: Keys) {
    || (k.privateKey.None? && k.publicKey.None?)
    || (k.privateKey.Some? && k.publicKey.Some? && DerivePublicKey(k.privateKey.value) == k.publicKey)
  }

  ghost predicate SamePair(k: Keys, l: Keys) { k.privateKey == l.privateKey && k.publicKey == l.publicKey }

  lemma {:induction false} RunKeepsPair(k: Keys, steps: seq<Step>)
    requires Paired(k)
    ensures Paired(Run(k, steps))
    ensures k.publicKey.Some? ==> SamePair(k, Run(k, steps))
  {
    if steps != [] {
      RunKeepsPair(k, steps[..|steps| - 1]);
    }
  }

  /** The first key a route asks for and gets is the key for the rest of the process, for both
      routes, whatever happens to the file. */
  lemma FirstLoadPins(file: Option<Pem>, steps: seq<Step>, more: seq<Step>)
    ensures var now := Run(Keys(None, None, file), steps);
            var later := Run(PairForMint(now).0, more);
            PairForMint(now).1.Loaded? ==>
              && PairForMint(later).1 == PairForMint(now).1
              && KeyForVerify(now).1 == Loaded(PairForMint(now).1.value.1)
              && KeyForVerify(later).1 == KeyForVerify(now).1
              && (now.publicKey.None? ==> now.file == Some(PairForMint(now).1.value.0))
    ensures var now := Run(Keys(None, None, file), steps);
            var later := Run(KeyForVerify(now).0, more);
            KeyForVerify(now).1.Loaded? ==>
              && KeyForVerify(later).1 == KeyForVerify(now).1
              && PairForMint(later).1.Loaded? && PairForMint(later).1.value.1 == KeyForVerify(now).1.value
  {
    var now := Run(Keys(None, None, file), steps);
    RunKeepsPair(Keys(None, None, file), steps);
    RunKeepsPair(PairForMint(now).0, more);
    RunKeepsPair(KeyForVerify(now).0, more);
  }

  /** Key pinning: a token minted at any moment of a process verifies at every later moment
      of that process from its mint until its expiry, however often the key file was
      overwritten before, in between or after. */
  lemma MintedTokensVerify(file: Option<Pem>, steps: seq<Step>, more: seq<Step>, clientId: string,
                           agentId: Option<string>, granted: seq<string>, ttl: int, issuer: string,
                           minted: real, time: real)
    requires PairForMint(Run(Keys(None, None, file), steps)).1.Loaded?
    requires minted <= time && forall s | s in granted :: IsWord(s)
    ensures var now := Run(Keys(None, None, file), steps);
            var token := MintAgentToken(clientId, agentId, granted, ttl, PairForMint(now).1.value.0, issuer, minted).0;
            var key := KeyForVerify(Run(PairForMint(now).0, more)).1;
            && key.Loaded?
            && (VerifyAgentToken(token, key.value, time).Some? <==> time < (minted.Floor + ttl) as real)
  {
    var now := Run(Keys(None, None, file), steps);
    RunKeepsPair(Keys(None, None, file), steps);
    FirstLoadPins(file, steps, more);
    MintThenVerify(clientId, agentId, granted, ttl, PairForMint(now).1.value.0, issuer, minted, time);
  }

  /** From token endpoint to decision, across rotations: a token issued at any moment of a
      process and presented later in it, before it expires, passes the gate exactly when
      govern:enforce was asked for and is allowed to the client. */
  lemma IssuedTokensPassTheGate(file: Option<Pem>, steps: seq<Step>, more: seq<Step>, grant: Result,
                                clientId: string, secret: string, scope: string, warm: bool,
                                authorized: seq<AuthorizedClient>, accepts: (string, string) -> bool,
                                ttl: int, tenantId: string, minted: real, time: real)
    requires grant == Grant("client_credentials", clientId, secret, scope, warm, authorized, accepts)
    requires grant.Granted? && PairForMint(Run(Keys(None, None, file), steps)).1.Loaded?
    requires minted <= time < (minted.Floor + ttl) as real
    ensures var now := Run(Keys(None, None, file), steps);
            var issued := IssueToken(grant, Some(PairForMint(now).1.value.0), ttl, tenantId, minted);
            var key := KeyForVerify(Run(PairForMint(now).0, more)).1;
            && issued.Issued? && key.Loaded?
            && (RequireAgentToken(Bearer(issued.token), Some(key.value), time).Passed? <==>
                  "govern:enforce" in Words(scope) && "govern:enforce" in grant.client.allowedScopes)
  {
    hide Grant, RequireAgentToken;
    var now := Run(Keys(None, None, file), steps);
    RunKeepsPair(Keys(None, None, file), steps);
    FirstLoadPins(file, steps, more);
    GateNeedsGovernEnforce(grant, clientId, secret, scope, warm, authorized, accepts,
                           PairForMint(now).1.value.0, ttl, tenantId, minted, time);
  }
}
