/** The Native Messaging handler: presence, registration or assertion, then the PRF outputs. */
module WebAuthn {
  import opened Basics
  import opened Crypto
  import opened A = Authenticator
  import P = Presence
  import HmacSecret
  import Ctap2

  /** Salts as decoded from base64 (`None`: undecodable); the second may be absent. */
  datatype PrfEval = PrfEval(first: Option<bytes>, second: Option<Option<bytes>>)

  datatype PrfOutputs = PrfOutputs(first: bytes, second: Option<bytes>)

  datatype WebError =
    | TypeError | UserDenied | Timeout | NoCredential | Excluded | InvalidParameters | InvalidPRFSalt | PRFFailed
    | Unknown

  datatype CreateRequest = CreateRequest(
    challenge: Option<bytes>, origin: bytes, rpId: bytes, rpName: bytes,
    userId: Option<bytes>, userName: bytes, userDisplayName: bytes,
    es256: bool, residentKey: bytes, prf: Option<Option<PrfEval>>, exclude: seq<Option<bytes>>)

  datatype PrfChoice = NoPrf | Eval(e: PrfEval) | EvalByCredential(m: map<bytes, PrfEval>)

  datatype GetRequest = GetRequest(
    challenge: Option<bytes>, origin: bytes, rpId: bytes, allow: seq<Option<bytes>>, prf: PrfChoice)

  /** The JSON of the collected client data, from type, challenge and origin. */
  type ClientData = (bytes, bytes, bytes) -> bytes

  datatype WebReply =
    | Failed(error: WebError)
    | CreateReply(created: Created, clientDataJSON: bytes, prf: Option<PrfOutputs>)
    | GetReply(got: DirectAssertion, clientDataJSON: bytes, prf: Option<PrfOutputs>)

  // ---------------------------------------------------------------- small pieces

  function HashPRFSalt(c: Crypto, salt: bytes): bytes {
    c.sha256(Text("WebAuthn PRF") + [0x00] + salt)
  }

  function ComputePRFResult(env: Env, id: bytes, eval: Option<PrfEval>): Result<Option<PrfOutputs>, WebError> {
    if eval.None? then Ok(None)
    else if eval.value.first.None? then Err(InvalidPRFSalt)
    else if eval.value.second == Some(None) then Err(InvalidPRFSalt)
    else
      var salt1 := HashPRFSalt(env.crypto, eval.value.first.value);
      var salt2 := if eval.value.second.None? then [] else HashPRFSalt(env.crypto, eval.value.second.value.value);
      match env.signer.credRandom(id)
      case None => Err(PRFFailed)
      case Some(r) =>
        var (o1, o2) := HmacSecret.Prf(env.crypto, r, salt1, salt2);
        Ok(Some(PrfOutputs(o1, o2)))
  }

  /** The entries of a list that decode; the others are skipped. */
  function Decoded(ids: seq<Option<bytes>>): seq<bytes> {
    if ids == [] then []
    else Decoded(ids[..|ids| - 1]) + (if ids[|ids| - 1].Some? then [ids[|ids| - 1].value] else [])
  }

  function ErrorText(e: P.PromptError): bytes {
    match e
    case NoMethod => Text("no confirmation method available")
    case PromptTimedOut => Text("confirmation timed out")
    case CommandFailed(text) => text
  }

  const FINGERPRINT_TIMEOUT: bytes := Text("fingerprint verification timed out")

  /** How a wait that was not granted is reported. */
  function WaitError(k: P.Caller): WebError
    requires !k.Waiting?
  {
    match k
    case Refused(_) => UserDenied
    case Expired(_, _) => Timeout
    case Got(_, _, Denied(e)) => if ErrorText(e) == FINGERPRINT_TIMEOUT then Timeout else UserDenied
    case Got(_, _, Approved) => Unknown
  }

  function Hash(env: Env, json: bytes): bytes { env.crypto.sha256(json) }

  function CreateJSON(cd: ClientData, req: CreateRequest): bytes
    requires req.challenge.Some?
  {
    cd(Text("webauthn.create"), req.challenge.value, req.origin)
  }

  function GetJSON(cd: ClientData, req: GetRequest): bytes
    requires req.challenge.Some?
  {
    cd(Text("webauthn.get"), req.challenge.value, req.origin)
  }

  // ---------------------------------------------------------------- create and get

  function ParamsOf(env: Env, cd: ClientData, req: CreateRequest): CreateParams
    requires req.challenge.Some? && req.userId.Some?
  {
    CreateParams(
      Hash(env, CreateJSON(cd, req)), req.rpId, req.rpName, User(req.userId.value, req.userName, req.userDisplayName),
      req.residentKey == Text("required") || req.residentKey == Text("preferred"), req.prf.Some?, Decoded(req.exclude))
  }

  predicate Acceptable(req: Option<CreateRequest>) {
    req.Some? && req.value.challenge.Some? && req.value.userId.Some? && req.value.es256
  }

  /** The PRF is computed after the credential exists: its failure does not undo the registration. */
  function Create(env: Env, cd: ClientData, s: State, req: Option<CreateRequest>, meanwhile: seq<P.Act>, o: Outcome)
    : (State, WebReply)
    requires env.Lawful()
  {
    if !Acceptable(req) then (s, Failed(TypeError))
    else
      var p := ParamsOf(env, cd, req.value);
      var (s', k) := Ask(env, s, p.clientDataHash, p.rpId, meanwhile);
      if !P.AnswerTo(k).Granted? then (s', Failed(WaitError(k)))
      else
        var (t, r) := MakeCredentialDirect(env, s', p, o);
        match r
        case Err(ErrExcluded) => (t, Failed(Excluded))
        case Err(_) => (t, Failed(Unknown))
        case Ok(c) =>
          match ComputePRFResult(env, c.credentialId, if req.value.prf.None? then None else req.value.prf.value)
          case Err(e) => (t, Failed(e))
          case Ok(prf) => (t, CreateReply(c, CreateJSON(cd, req.value), prf))
  }

  function GetParamsOf(env: Env, cd: ClientData, req: GetRequest): GetParams
    requires req.challenge.Some?
  {
    GetParams(Hash(env, GetJSON(cd, req)), req.rpId, Decoded(req.allow), None)
  }

  /** Which salts apply to the credential that was used. */
  function EvalFor(choice: PrfChoice, allowed: seq<bytes>, id: bytes): Result<Option<PrfEval>, WebError> {
    match choice
    case NoPrf => Ok(None)
    case Eval(e) => Ok(Some(e))
    case EvalByCredential(m) =>
      if allowed == [] then Err(InvalidParameters) else Ok(if id in m then Some(m[id]) else None)
  }

  function Get(env: Env, cd: ClientData, s: State, req: Option<GetRequest>, meanwhile: seq<P.Act>): (State, WebReply)
    requires env.Lawful()
  {
    if req.None? || req.value.challenge.None? then (s, Failed(TypeError))
    else
      var p := GetParamsOf(env, cd, req.value);
      var (s', k) := Ask(env, s, p.clientDataHash, p.rpId, meanwhile);
      if !P.AnswerTo(k).Granted? then (s', Failed(WaitError(k)))
      else
        var (t, r) := GetAssertionDirect(env, s', p);
        match r
        case Err(ErrNoCredentials) => (t, Failed(NoCredential))
        case Err(_) => (t, Failed(Unknown))
        case Ok(a) =>
          match EvalFor(req.value.prf, p.allowCredentials, a.credentialId)
          case Err(e) => (t, Failed(e))
          case Ok(eval) =>
            match ComputePRFResult(env, a.credentialId, eval)
            case Err(e) => (t, Failed(e))
            case Ok(prf) => (t, GetReply(a, GetJSON(cd, req.value), prf))
  }

  // ---------------------------------------------------------------- the handler object

  class Handler {
    const ctap2Handler: Ctap2.Handler
    const clientData: ClientData

    constructor (ctap2Handler: Ctap2.Handler, clientData: ClientData)
      ensures this.ctap2Handler == ctap2Handler && this.clientData == clientData
    {
      this.ctap2Handler, this.clientData := ctap2Handler, clientData;
    }

    method DecodeList(ids: seq<Option<bytes>>) returns (r: seq<bytes>)
      ensures r == Decoded(ids)
    {
      r := [];
      for i := 0 to |ids|
        invariant r == Decoded(ids[..i])
      {
        assert ids[..i + 1][..i] == ids[..i];
        if ids[i].None? {
          continue;
        }
        r := r + [ids[i].value];
      }
      assert ids[..|ids|] == ids;
    }

    method ComputePRF(id: bytes, eval: Option<PrfEval>) returns (r: Result<Option<PrfOutputs>, WebError>)
      ensures r == ComputePRFResult(ctap2Handler.env, id, eval)
    {
      var env := ctap2Handler.env;
      if eval.None? {
        return Ok(None);
      }
      if eval.value.first.None? {
        return Err(InvalidPRFSalt);
      }
      var salt1 := HashPRFSalt(env.crypto, eval.value.first.value);
      var salt2: bytes := [];
      if eval.value.second.Some? {
        if eval.value.second.value.None? {
          return Err(InvalidPRFSalt);
        }
        salt2 := HashPRFSalt(env.crypto, eval.value.second.value.value);
      }
      var credRandom := env.signer.credRandom(id);
      if credRandom.None? {
        return Err(PRFFailed);
      }
      var (output1, output2) := HmacSecret.Prf(env.crypto, credRandom.value, salt1, salt2);
      return Ok(Some(PrfOutputs(output1, output2)));
    }

    /** The request for presence and the wait for its end, with the error to report if it was not
        granted. */
    method ConfirmUser(clientDataHash: bytes, rpIdHash: bytes, meanwhile: seq<P.Act>)
      returns (failure: Option<WebError>)
      requires ctap2Handler.Valid()
      modifies ctap2Handler.presence
      ensures ctap2Handler.Valid()
      ensures var (ps, k) := P.Await(old(ctap2Handler.presence.View()), P.Pair(clientDataHash, rpIdHash), meanwhile);
              ctap2Handler.View() == old(ctap2Handler.View()).(presence := ps)
              && failure == if P.AnswerTo(k).Granted? then None else Some(WaitError(k))
    {
      var presence := ctap2Handler.presence;
      var caller, channel := presence.ConfirmPresence(P.Pair(clientDataHash, rpIdHash));
      if channel.None? {
        return Some(UserDenied);
      }
      var result := presence.Wait(caller, meanwhile);
      if result.Expired? {
        return Some(Timeout);
      }
      if result.v.Denied? {
        return Some(if ErrorText(result.v.error) == FINGERPRINT_TIMEOUT then Timeout else UserDenied);
      }
      return None;
    }

    method HandleCreate(req: Option<CreateRequest>, meanwhile: seq<P.Act>, o: Outcome) returns (reply: WebReply)
      requires ctap2Handler.Valid()
      modifies ctap2Handler`ticks, ctap2Handler.storage, ctap2Handler.presence
      ensures ctap2Handler.Valid()
      ensures (ctap2Handler.View(), reply)
           == Create(ctap2Handler.env, clientData, old(ctap2Handler.View()), req, meanwhile, o)
    {
      var env := ctap2Handler.env;
      if req.None? || req.value.challenge.None? || req.value.userId.None? || !req.value.es256 {
        return Failed(TypeError);
      }
      var options := req.value;
      var json := CreateJSON(clientData, options);
      var residentKey := options.residentKey == Text("required") || options.residentKey == Text("preferred");
      var excludeList := DecodeList(options.exclude);
      var failure := ConfirmUser(Hash(env, json), env.HashRPID(options.rpId), meanwhile);
      if failure.Some? {
        return Failed(failure.value);
      }
      var result := ctap2Handler.MakeCredentialDirect(
        CreateParams(Hash(env, json), options.rpId, options.rpName,
                     User(options.userId.value, options.userName, options.userDisplayName),
                     residentKey, options.prf.Some?, excludeList), o);
      if result.Err? {
        return Failed(if result.error.ErrExcluded? then Excluded else Unknown);
      }
      var prf: Option<PrfOutputs> := None;
      if options.prf.Some? {
        var computed := ComputePRF(result.value.credentialId, options.prf.value);
        if computed.Err? {
          return Failed(computed.error);
        }
        prf := computed.value;
      }
      return CreateReply(result.value, json, prf);
    }

    method HandleGet(req: Option<GetRequest>, meanwhile: seq<P.Act>) returns (reply: WebReply)
      requires ctap2Handler.Valid()
      modifies ctap2Handler`ticks, ctap2Handler.presence
      ensures ctap2Handler.Valid()
      ensures (ctap2Handler.View(), reply)
           == Get(ctap2Handler.env, clientData, old(ctap2Handler.View()), req, meanwhile)
    {
      var env := ctap2Handler.env;
      if req.None? || req.value.challenge.None? {
        return Failed(TypeError);
      }
      var options := req.value;
      var json := GetJSON(clientData, options);
      var failure := ConfirmUser(Hash(env, json), env.HashRPID(options.rpId), meanwhile);
      if failure.Some? {
        return Failed(failure.value);
      }
      var allowCredentials := DecodeList(options.allow);
      var result := ctap2Handler.GetAssertionDirect(GetParams(Hash(env, json), options.rpId, allowCredentials, None));
      if result.Err? {
        return Failed(if result.error.ErrNoCredentials? then NoCredential else Unknown);
      }
      var id := result.value.credentialId;
      var eval: Option<PrfEval> := None;
      if options.prf.EvalByCredential? {
        if |allowCredentials| == 0 {
          return Failed(InvalidParameters);
        }
        if id in options.prf.m {
          eval := Some(options.prf.m[id]);
        }
      } else if options.prf.Eval? {
        eval := Some(options.prf.e);
      }
      var computed := ComputePRF(id, eval);
      if computed.Err? {
        return Failed(computed.error);
      }
      return GetReply(result.value, json, computed.value);
    }
  }
}
