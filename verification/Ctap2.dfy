/** The CTAP2 handler object: searches, the assertion cursor and registration, updated in place. */
module Ctap2 {
  import opened Basics
  import opened Storage
  import opened AuthData
  import opened A = Authenticator
  import BigEndian
  import HmacSecret
  import P = Presence

  class Handler {
    const env: Env
    const storage: CredentialStorage?
    const presence: P.UserPresence
    var ecdhKey: Option<nat>
    var assertionState: Option<AssertionState>
    var ticks: nat

    ghost predicate Valid()
      reads this, storage, presence
    {
      env.Lawful() && P.Inv(presence.View()) && (storage != null ==> storage.Valid() && storage.codec == env.codec)
    }

    ghost function View(): State
      reads this, storage, presence
    {
      State(if storage == null then None else Some(Store(storage.credentials, storage.files)),
            ecdhKey, assertionState, ticks, presence.View())
    }

    constructor (env: Env, presence: P.UserPresence, storage: CredentialStorage?)
      requires env.Lawful() && P.Inv(presence.View())
      requires storage != null ==> storage.Valid() && storage.codec == env.codec
      ensures Valid() && this.env == env && this.storage == storage && this.presence == presence
      ensures ecdhKey == None && assertionState == None && ticks == 0
    {
      this.env, this.storage, this.presence := env, storage, presence;
      ecdhKey, assertionState, ticks := None, None, 0;
    }

    /** One reading of the signer's counter. */
    method Counter() returns (n: nat)
      requires Valid()
      modifies this`ticks
      ensures n == env.signer.counter(old(ticks)) && Valid() && View() == old(View()).(ticks := old(ticks) + 1)
    {
      n := env.signer.counter(ticks);
      ticks := ticks + 1;
    }

    // -------------------------------------------------------------- searches

    /** The loop with an early exit over a list of IDs. */
    method FindSigning(ids: seq<bytes>, rpIdHash: bytes, digest: bytes) returns (found: Option<bytes>)
      ensures var i := FirstSigning(env, ids, rpIdHash, digest);
              found == if i < |ids| then Some(ids[i]) else None
    {
      for i := 0 to |ids|
        invariant forall j :: 0 <= j < i ==> env.signer.sign(ids[j], rpIdHash, digest).None?
      {
        var sig := env.signer.sign(ids[i], rpIdHash, digest);
        if sig.Some? {
          return Some(ids[i]);
        }
      }
      return None;
    }

    /** The loop that keeps every credential that still signs. */
    method KeepLive(creds: seq<Credential>, rpIdHash: bytes) returns (valid: seq<Credential>)
      ensures valid == Live(env, creds, rpIdHash)
    {
      valid := [];
      for i := 0 to |creds|
        invariant valid == Live(env, creds[..i], rpIdHash)
      {
        assert creds[..i + 1][..i] == creds[..i];
        var sig := env.signer.sign(creds[i].credentialId, rpIdHash, env.CheckDigest());
        if sig.Some? {
          valid := valid + [creds[i]];
        }
      }
      assert creds[..|creds|] == creds;
    }

    method FindCredentials(rpId: bytes) returns (valid: seq<Credential>)
      requires Valid()
      ensures valid == Discoverable(env, View(), rpId)
    {
      if storage == null {
        return [];
      }
      var creds := storage.GetByRPID(rpId);
      valid := KeepLive(creds, env.HashRPID(rpId));
    }

    /** The request for presence and the wait for its end, with the status to return if it was not
        granted. */
    method ConfirmUser(clientDataHash: bytes, rpIdHash: bytes, meanwhile: seq<P.Act>) returns (failure: Option<byte>)
      requires Valid()
      modifies presence
      ensures Valid()
      ensures var (ps, k) := P.Await(old(presence.View()), P.Pair(clientDataHash, rpIdHash), meanwhile);
              presence.View() == ps
              && failure == if P.AnswerTo(k).Granted? then None else Some(PresenceFailure(k))
    {
      var caller, channel := presence.ConfirmPresence(P.Pair(clientDataHash, rpIdHash));
      if channel.None? {
        return Some(OPERATION_DENIED);
      }
      var result := presence.Wait(caller, meanwhile);
      if result.Expired? {
        return Some(USER_ACTION_TIMEOUT);
      }
      if !result.v.Approved? {
        return Some(OPERATION_DENIED);
      }
      return None;
    }

    // -------------------------------------------------------------- assertions

    method ProcessExtension(id: bytes, extensions: Option<HmacSecret.Input>)
      returns (r: Result<Option<bytes>, HmacSecret.Error>)
      requires Valid()
      ensures r == Extend(env, ecdhKey, id, extensions)
    {
      if extensions.None? {
        return Ok(None);
      }
      var out := HmacSecret.ProcessHmacSecret(env.crypto, ecdhKey, env.signer.credRandom(id), extensions.value);
      if out.Err? {
        return Err(out.error);
      }
      return Ok(Some(out.value));
    }

    /** Flags, counter, layout and signature of an assertion. */
    method SignAssertion(id: bytes, rpIdHash: bytes, clientDataHash: bytes, output: Option<bytes>)
      returns (authData: bytes, signature: Option<bytes>)
      requires Valid() && (output.Some? ==> |output.value| < 256)
      modifies this`ticks
      ensures Valid()
      ensures (View(), authData, signature) == SignData(env, old(View()), id, rpIdHash, clientDataHash, output)
    {
      var extensionsOutput: bytes := [];
      if output.Some? {
        extensionsOutput := GetExtension(output.value);
      }
      var flags := With(With(0, UserPresent), UserVerified);
      if |extensionsOutput| > 0 {
        flags := With(flags, ExtensionData);
      }
      var count := Counter();
      authData := Marshal(AuthenticatorData(rpIdHash, flags, count, None, extensionsOutput));
      signature := env.signer.sign(id, rpIdHash, env.crypto.sha256(authData + clientDataHash));
    }

    method BuildResponse(id: bytes, user: Option<User>, rpIdHash: bytes, clientDataHash: bytes,
                         extensions: Option<HmacSecret.Input>, number: nat) returns (reply: Reply)
      requires Valid()
      modifies this`ticks
      ensures Valid()
      ensures (View(), reply) == Build(env, old(View()), id, user, rpIdHash, clientDataHash, extensions, number)
    {
      var output := ProcessExtension(id, extensions);
      if output.Err? {
        return Status(EXTENSION_FIRST);
      }
      var authData, sig := SignAssertion(id, rpIdHash, clientDataHash, output.value);
      if sig.None? {
        return Status(OTHER);
      }
      return AssertionReply(Assertion(id, authData, sig.value, user, number));
    }

    method GetAssertion(req: AssertRequest, meanwhile: seq<P.Act>) returns (reply: Reply)
      requires Valid()
      modifies this, presence
      ensures Valid() && (View(), reply) == A.GetAssertion(env, old(View()), req, meanwhile)
    {
      assertionState := None;
      if |req.clientDataHash| != 32 {
        return Status(INVALID_PARAMETER);
      }
      var rpIdHash := env.HashRPID(req.rpId);
      var fromAllowList: Option<bytes> := None;
      var matched: seq<Credential> := [];
      if |req.allowList| > 0 {
        fromAllowList := FindSigning(req.allowList, rpIdHash, env.CheckDigest());
        if fromAllowList.None? {
          return Status(NO_CREDENTIALS);
        }
      } else {
        if storage == null {
          return Status(NO_CREDENTIALS);
        }
        matched := storage.GetByRPID(req.rpId);
        if |matched| == 0 {
          return Status(NO_CREDENTIALS);
        }
        matched := KeepLive(matched, rpIdHash);
        if |matched| == 0 {
          return Status(NO_CREDENTIALS);
        }
      }
      var failure := ConfirmUser(req.clientDataHash, rpIdHash, meanwhile);
      if failure.Some? {
        return Status(failure.value);
      }
      if fromAllowList.Some? {
        reply := BuildResponse(fromAllowList.value, None, rpIdHash, req.clientDataHash, req.hmacSecret, 0);
        return;
      }
      if |matched| > 1 {
        assertionState := Some(AssertionState(matched, 0, rpIdHash, req.clientDataHash, req.hmacSecret));
      }
      var number := if |matched| > 1 then |matched| else 0;
      reply := BuildResponse(matched[0].credentialId, Some(UserOf(matched[0])), rpIdHash, req.clientDataHash,
                             req.hmacSecret, number);
    }

    method HandleGetNextAssertion() returns (reply: Reply)
      requires Valid()
      modifies this
      ensures Valid() && (View(), reply) == GetNextAssertion(env, old(View()))
    {
      if assertionState.None? {
        return Status(NOT_ALLOWED);
      }
      var state := assertionState.value;
      state := state.(currentIndex := state.currentIndex + 1);
      assertionState := Some(state);
      if state.currentIndex >= |state.credentials| {
        assertionState := None;
        return Status(NOT_ALLOWED);
      }
      var cred := state.credentials[state.currentIndex];
      reply := BuildResponse(cred.credentialId, Some(UserOf(cred)), state.rpIdHash, state.clientDataHash,
                             state.extensions, 0);
    }

    /** The discoverable search that stops at the first credential that signs. */
    method FirstDiscoverable(matched: seq<Credential>, rpIdHash: bytes) returns (cred: Option<Credential>)
      ensures var i := FirstSigning(env, Ids(matched), rpIdHash, env.CheckDigest());
              cred == if i < |matched| then Some(matched[i]) else None
    {
      for i := 0 to |matched|
        invariant forall j :: 0 <= j < i ==> env.signer.sign(Ids(matched)[j], rpIdHash, env.CheckDigest()).None?
      {
        var sig := env.signer.sign(matched[i].credentialId, rpIdHash, env.CheckDigest());
        if sig.Some? {
          assert Ids(matched)[i] == matched[i].credentialId;
          return Some(matched[i]);
        }
      }
      return None;
    }

    /** The first half of `GetAssertionDirect`: which credential, and whose. */
    method ChooseCredential(p: GetParams) returns (r: Option<(bytes, Option<User>)>)
      requires Valid()
      ensures r == Choose(env, View(), p)
    {
      var rpIdHash := env.HashRPID(p.rpId);
      var credentialId: Option<bytes> := None;
      var user: Option<User> := None;
      if |p.allowCredentials| > 0 {
        credentialId := FindSigning(p.allowCredentials, rpIdHash, env.CheckDigest());
      } else {
        if storage == null {
          return None;
        }
        var matched := storage.GetByRPID(p.rpId);
        var cred := FirstDiscoverable(matched, rpIdHash);
        if cred.Some? {
          credentialId := Some(cred.value.credentialId);
          user := Some(UserOf(cred.value));
        }
      }
      if credentialId.None? {
        return None;
      }
      return Some((credentialId.value, user));
    }

    method GetAssertionDirect(p: GetParams) returns (r: Result<DirectAssertion, DirectError>)
      requires Valid()
      modifies this`ticks
      ensures Valid() && (View(), r) == A.GetAssertionDirect(env, old(View()), p)
    {
      if |p.clientDataHash| != 32 {
        return Err(ErrInvalidParameter);
      }
      var chosen := ChooseCredential(p);
      if chosen.None? {
        return Err(ErrNoCredentials);
      }
      var rpIdHash := env.HashRPID(p.rpId);
      var (credentialId, user) := chosen.value;
      var output := ProcessExtension(credentialId, p.hmacSecret);
      if output.Err? {
        return Err(ErrHmac(output.error));
      }
      var authData, sig := SignAssertion(credentialId, rpIdHash, p.clientDataHash, output.value);
      if sig.None? {
        return Err(ErrSign);
      }
      return Ok(DirectAssertion(credentialId, authData, sig.value, user, output.value));
    }

    // -------------------------------------------------------------- registration

    /** Flags, counter and layout of a registration's authenticator data. */
    method RegistrationAuthData(rpIdHash: bytes, id: bytes, x: nat, y: nat, hmacSecret: bool) returns (authData: bytes)
      requires Valid()
      modifies this`ticks
      ensures Valid() && View() == old(View()).(ticks := old(ticks) + 1)
      ensures authData
           == Layout(CreateData(rpIdHash, env.Aaguid(), id, x, y, hmacSecret, env.signer.counter(old(ticks))))
    {
      var extensionsOutput: bytes := if hmacSecret then CreateExtension() else [];
      var flags := With(With(With(0, UserPresent), UserVerified), AttestedData);
      if hmacSecret {
        flags := With(flags, ExtensionData);
      }
      var count := Counter();
      authData := Marshal(AuthenticatorData(
        rpIdHash, flags, count, Some(Attested(env.Aaguid(), id, CoseKey(x, y))), extensionsOutput));
    }

    /** The save of a resident credential; its failure is ignored. */
    method KeepResident(p: CreateParams, id: bytes, x: nat, y: nat, o: Outcome)
      requires Valid()
      modifies storage
      ensures Valid() && View() == Kept(env, old(View()), p, id, x, y, o)
    {
      if p.residentKey && storage != null {
        var saved := storage.Save(CredentialFor(p, id, x, y, o.createdAt), o.fault);
      }
    }

    method RegisterCredential(p: CreateParams, o: Outcome) returns (r: Result<Created, DirectError>)
      requires Valid()
      modifies this`ticks, storage
      ensures Valid() && (View(), r) == Register(env, old(View()), p, o)
    {
      if o.key.None? {
        return Err(ErrRegister);
      }
      var (id, x, y) := o.key.value;
      KeepResident(p, id, x, y, o);
      r := AttestKey(p, id, x, y);
    }

    method AttestKey(p: CreateParams, id: bytes, x: nat, y: nat) returns (r: Result<Created, DirectError>)
      requires Valid()
      modifies this`ticks
      ensures Valid() && (View(), r) == Attest(env, old(View()), p, id, x, y)
    {
      var authData := RegistrationAuthData(env.HashRPID(p.rpId), id, x, y, p.hmacSecret);
      var sig := env.attest(env.crypto.sha256(authData + p.clientDataHash));
      if sig.None? {
        return Err(ErrAttest);
      }
      return Ok(Created(id, authData, sig.value, x, y));
    }

    method MakeCredentialDirect(p: CreateParams, o: Outcome) returns (r: Result<Created, DirectError>)
      requires Valid()
      modifies this`ticks, storage
      ensures Valid() && (View(), r) == A.MakeCredentialDirect(env, old(View()), p, o)
    {
      if |p.clientDataHash| != 32 {
        return Err(ErrInvalidParameter);
      }
      var excluded := FindSigning(p.excludeList, env.HashRPID(p.rpId), env.ExcludeDigest());
      if excluded.Some? {
        return Err(ErrExcluded);
      }
      r := RegisterCredential(p, o);
    }

    method MakeCredential(p: CreateParams, es256: bool, meanwhile: seq<P.Act>, o: Outcome) returns (reply: Reply)
      requires Valid()
      modifies this`ticks, storage, presence
      ensures Valid() && (View(), reply) == A.MakeCredential(env, old(View()), p, es256, meanwhile, o)
    {
      if |p.clientDataHash| != 32 {
        return Status(INVALID_PARAMETER);
      }
      if !es256 {
        return Status(UNSUPPORTED_EXTENSION);
      }
      var rpIdHash := env.HashRPID(p.rpId);
      var excluded := FindSigning(p.excludeList, rpIdHash, env.ExcludeDigest());
      if excluded.Some? {
        return Status(CREDENTIAL_EXCLUDED);
      }
      var failure := ConfirmUser(p.clientDataHash, rpIdHash, meanwhile);
      if failure.Some? {
        return Status(failure.value);
      }
      var r := RegisterCredential(p, o);
      return match r case Ok(c) => Attestation(c) case Err(_) => Status(OTHER);
    }

    // -------------------------------------------------------------- dispatch

    method HandleClientPIN(sub: Option<nat>, freshKey: Option<nat>) returns (reply: Reply)
      requires Valid()
      modifies this`ecdhKey
      ensures Valid() && (View(), reply) == ClientPIN(env, old(View()), sub, freshKey)
    {
      if sub.None? {
        return Status(INVALID_CBOR);
      }
      if sub.value != 2 {
        return Status(PIN_NOT_SET);
      }
      if ecdhKey.None? {
        if freshKey.None? {
          return Status(OTHER);
        }
        ecdhKey := freshKey;
      }
      var (x, y) := env.crypto.publicKey(ecdhKey.value);
      return KeyAgreement(BigEndian.Coordinate(x), BigEndian.Coordinate(y));
    }

    method HandleCommand(cmd: Command) returns (reply: Reply)
      requires Valid()
      modifies this, storage, presence
      ensures Valid() && (View(), reply) == A.HandleCommand(env, old(View()), cmd)
    {
      match cmd
      case CmdGetInfo => reply := Info;
      case CmdMakeCredential(make, meanwhile, o) =>
        if make.None? {
          return Status(INVALID_CBOR);
        }
        reply := MakeCredential(make.value.0, make.value.1, meanwhile, o);
      case CmdGetAssertion(req, meanwhile) =>
        if req.None? {
          return Status(INVALID_CBOR);
        }
        reply := GetAssertion(req.value, meanwhile);
      case CmdGetNextAssertion => reply := HandleGetNextAssertion();
      case CmdClientPIN(sub, freshKey) => reply := HandleClientPIN(sub, freshKey);
      case CmdUnknown => reply := Status(INVALID_COMMAND);
    }
  }
}
