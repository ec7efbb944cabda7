/** The CTAP2 handler's state and operations, as functions on values. */
module Authenticator {
  import opened Basics
  import opened Storage
  import opened Crypto
  import opened AuthData
  import BigEndian
  import HmacSecret
  import P = Presence

  // ---------------------------------------------------------------- backends

  /** The key backend: signatures and derivation by handle, and the n-th reading of its counter. */
  datatype Signer = Signer(
    sign: (bytes, bytes, bytes) -> Option<bytes>,
    credRandom: bytes -> Option<bytes>,
    counter: nat -> nat)
  {
    /** Whether signing succeeds depends only on the handle and the application parameter. */
    ghost predicate Steady() {
      forall h, a, d, e :: sign(h, a, d).Some? <==> sign(h, a, e).Some?
    }
  }

  datatype Env = Env(crypto: Crypto, signer: Signer, codec: Codec, attest: bytes -> Option<bytes>) {
    ghost predicate Lawful() {
      crypto.Lawful() && (forall n :: signer.counter(n) < BigEndian.Pow256(4))
    }

    function HashRPID(rpId: bytes): bytes { crypto.sha256(rpId) }

    function CheckDigest(): bytes { crypto.sha256(Text("credential-check")) }

    function ExcludeDigest(): bytes { crypto.sha256(Text("exclude-check")) }

    function Aaguid(): bytes
      requires Lawful()
    {
      crypto.sha256(Text("tpm-fido-prf"))[..16]
    }
  }

  predicate Signs(env: Env, id: bytes, rpIdHash: bytes) {
    env.signer.sign(id, rpIdHash, env.CheckDigest()).Some?
  }

  // ---------------------------------------------------------------- state

  datatype AssertionState = AssertionState(
    credentials: seq<Credential>, currentIndex: nat, rpIdHash: bytes, clientDataHash: bytes,
    extensions: Option<HmacSecret.Input>)

  datatype Store = Store(creds: seq<Credential>, files: Files)

  /** `ticks` counts how often the signer's counter was read. */
  datatype State = State(
    store: Option<Store>, ecdhKey: Option<nat>, assertion: Option<AssertionState>, ticks: nat, presence: P.State)

  /** What the user is asked to approve: one client data hash at one relying party. */
  function PairOf(env: Env, clientDataHash: bytes, rpId: bytes): P.Pair {
    P.Pair(clientDataHash, env.HashRPID(rpId))
  }

  /** Asking the user and waiting, while everyone else takes the steps `meanwhile`. */
  function Ask(env: Env, s: State, clientDataHash: bytes, rpId: bytes, meanwhile: seq<P.Act>): (r: (State, P.Caller))
    ensures !r.1.Waiting?
    ensures P.AnswerTo(r.1).Granted? <==> Consents(env, s, clientDataHash, rpId, meanwhile)
  {
    var pair := PairOf(env, clientDataHash, rpId);
    var (ps, k) := P.Await(s.presence, pair, meanwhile);
    P.GrantedIffApproves(s.presence, pair, meanwhile);
    (s.(presence := ps), k)
  }

  /** The user approves, in time, exactly what is asked. */
  predicate Consents(env: Env, s: State, clientDataHash: bytes, rpId: bytes, meanwhile: seq<P.Act>) {
    P.Approves(s.presence, P.Pair(clientDataHash, env.crypto.sha256(rpId)), meanwhile)
  }

  // ---------------------------------------------------------------- replies

  const INVALID_COMMAND: byte := 0x01
  const INVALID_PARAMETER: byte := 0x02
  const INVALID_CBOR: byte := 0x12
  const UNSUPPORTED_EXTENSION: byte := 0x16
  const CREDENTIAL_EXCLUDED: byte := 0x19
  const OPERATION_DENIED: byte := 0x27
  const NO_CREDENTIALS: byte := 0x2e
  const USER_ACTION_TIMEOUT: byte := 0x2f
  const NOT_ALLOWED: byte := 0x30
  const PIN_NOT_SET: byte := 0x35
  const OTHER: byte := 0x7f
  const EXTENSION_FIRST: byte := 0xe0

  datatype User = User(id: bytes, name: bytes, displayName: bytes)

  /** `number` is 0 when the field is omitted. */
  datatype Assertion = Assertion(credentialId: bytes, authData: bytes, signature: bytes, user: Option<User>,
                                 number: nat)

  datatype Created = Created(credentialId: bytes, authData: bytes, signature: bytes, x: nat, y: nat)

  datatype DirectError =
    | ErrInvalidParameter | ErrNoCredentials | ErrExcluded | ErrRegister | ErrAttest | ErrHmac(e: HmacSecret.Error)
    | ErrSign

  datatype DirectAssertion = DirectAssertion(credentialId: bytes, authData: bytes, signature: bytes,
                                             user: Option<User>, hmacOutput: Option<bytes>)

  datatype Reply =
    | Status(code: byte)
    | Info
    | KeyAgreement(x: bytes, y: bytes)
    | Attestation(created: Created)
    | AssertionReply(assertion: Assertion)
    | DirectCreate(create: Result<Created, DirectError>)
    | DirectGet(got: Result<DirectAssertion, DirectError>)
    | StoreReply(ok: bool)
    | NoReply

  function UserOf(c: Credential): User { User(c.userId, c.userName, c.userDisplayName) }

  // ---------------------------------------------------------------- credential search

  /** The position of the first ID that signs `digest` for this relying party, or the length. */
  function FirstSigning(env: Env, ids: seq<bytes>, rpIdHash: bytes, digest: bytes): (i: nat)
    ensures i <= |ids|
    ensures forall j :: 0 <= j < i ==> env.signer.sign(ids[j], rpIdHash, digest).None?
    ensures i < |ids| ==> env.signer.sign(ids[i], rpIdHash, digest).Some?
  {
    if ids == [] then 0
    else if env.signer.sign(ids[0], rpIdHash, digest).Some? then 0
    else 1 + FirstSigning(env, ids[1..], rpIdHash, digest)
  }

  function Ids(creds: seq<Credential>): seq<bytes> {
    seq(|creds|, i requires 0 <= i < |creds| => creds[i].credentialId)
  }

  /** The credentials that can still sign for this relying party, in order. */
  function Live(env: Env, creds: seq<Credential>, rpIdHash: bytes): seq<Credential> {
    if creds == [] then []
    else
      var last := creds[|creds| - 1];
      Live(env, creds[..|creds| - 1], rpIdHash) + (if Signs(env, last.credentialId, rpIdHash) then [last] else [])
  }

  function Discoverable(env: Env, s: State, rpId: bytes): seq<Credential> {
    if s.store.None? then [] else Live(env, ByRP(s.store.value.creds, rpId), env.HashRPID(rpId))
  }

  // ---------------------------------------------------------------- assertions

  datatype AssertRequest = AssertRequest(rpId: bytes, clientDataHash: bytes, allowList: seq<bytes>,
                                         hmacSecret: Option<HmacSecret.Input>)

  /** The hmac-secret output for a credential, if one is asked for. */
  function Extend(env: Env, ecdhKey: Option<nat>, id: bytes, input: Option<HmacSecret.Input>)
    : (r: Result<Option<bytes>, HmacSecret.Error>)
    requires env.Lawful()
    ensures r.Ok? ==> (r.value.Some? <==> input.Some?)
    ensures r.Ok? && r.value.Some? ==> |r.value.value| == 32 || |r.value.value| == 64
  {
    if input.None? then Ok(None)
    else
      match HmacSecret.Process(env.crypto, ecdhKey, env.signer.credRandom(id), input.value)
      case Ok(out) => Ok(Some(out))
      case Err(e) => Err(e)
  }

  function ExtensionBytes(output: Option<bytes>): bytes
    requires output.Some? ==> |output.value| < 256
  {
    if output.Some? then GetExtension(output.value) else []
  }

  function AssertionBytes(env: Env, rpIdHash: bytes, output: Option<bytes>, ticks: nat): bytes
    requires output.Some? ==> |output.value| < 256
  {
    Layout(AssertionData(rpIdHash, ExtensionBytes(output), env.signer.counter(ticks)))
  }

  /** Authenticator data with one reading of the counter, and its signature if the key signs. */
  function SignData(env: Env, s: State, id: bytes, rpIdHash: bytes, clientDataHash: bytes, output: Option<bytes>)
    : (State, bytes, Option<bytes>)
    requires output.Some? ==> |output.value| < 256
  {
    var authData := AssertionBytes(env, rpIdHash, output, s.ticks);
    (s.(ticks := s.ticks + 1), authData, env.signer.sign(id, rpIdHash, env.crypto.sha256(authData + clientDataHash)))
  }

  /** A response for one credential; an extension error leaves the counter unread. */
  function Build(env: Env, s: State, id: bytes, user: Option<User>, rpIdHash: bytes, clientDataHash: bytes,
                 extensions: Option<HmacSecret.Input>, number: nat): (State, Reply)
    requires env.Lawful()
  {
    match Extend(env, s.ecdhKey, id, extensions)
    case Err(_) => (s, Status(EXTENSION_FIRST))
    case Ok(output) =>
      var (s', authData, signature) := SignData(env, s, id, rpIdHash, clientDataHash, output);
      match signature
      case None => (s', Status(OTHER))
      case Some(sig) => (s', AssertionReply(Assertion(id, authData, sig, user, number)))
  }

  /** The status of a wait that was not granted. */
  function PresenceFailure(k: P.Caller): byte
    requires !k.Waiting?
  {
    if k.Expired? then USER_ACTION_TIMEOUT else OPERATION_DENIED
  }

  /** Everything there is to enumerate: the live credentials of the moment, with the first in front. */
  function FullList(env: Env, s: State, req: AssertRequest): AssertionState {
    AssertionState(Discoverable(env, s, req.rpId), 0, env.HashRPID(req.rpId), req.clientDataHash, req.hmacSecret)
  }

  /** What a resident assertion leaves for its follow-ups. */
  function Snapshot(env: Env, s: State, req: AssertRequest): Option<AssertionState> {
    if |Discoverable(env, s, req.rpId)| > 1 then Some(FullList(env, s, req)) else None
  }

  /** The user is asked only when there is a credential to use. */
  function GetAssertion(env: Env, s0: State, req: AssertRequest, meanwhile: seq<P.Act>): (State, Reply)
    requires env.Lawful()
  {
    var s := s0.(assertion := None);
    var hash := env.HashRPID(req.rpId);
    if |req.clientDataHash| != 32 then (s, Status(INVALID_PARAMETER))
    else if |req.allowList| > 0 then
      var i := FirstSigning(env, req.allowList, hash, env.CheckDigest());
      if i == |req.allowList| then (s, Status(NO_CREDENTIALS))
      else
        var (s', k) := Ask(env, s, req.clientDataHash, req.rpId, meanwhile);
        if !P.AnswerTo(k).Granted? then (s', Status(PresenceFailure(k)))
        else Build(env, s', req.allowList[i], None, hash, req.clientDataHash, req.hmacSecret, 0)
    else
      var live := Discoverable(env, s, req.rpId);
      if live == [] then (s, Status(NO_CREDENTIALS))
      else
        var (s', k) := Ask(env, s, req.clientDataHash, req.rpId, meanwhile);
        if !P.AnswerTo(k).Granted? then (s', Status(PresenceFailure(k)))
        else
          Build(env, s'.(assertion := Snapshot(env, s, req)), live[0].credentialId, Some(UserOf(live[0])), hash,
                req.clientDataHash, req.hmacSecret, if |live| > 1 then |live| else 0)
  }

  function GetNextAssertion(env: Env, s: State): (State, Reply)
    requires env.Lawful()
  {
    if s.assertion.None? then (s, Status(NOT_ALLOWED))
    else
      var a := s.assertion.value.(currentIndex := s.assertion.value.currentIndex + 1);
      if a.currentIndex >= |a.credentials| then (s.(assertion := None), Status(NOT_ALLOWED))
      else
        var c := a.credentials[a.currentIndex];
        Build(env, s.(assertion := Some(a)), c.credentialId, Some(UserOf(c)), a.rpIdHash, a.clientDataHash,
              a.extensions, 0)
  }

  datatype GetParams = GetParams(clientDataHash: bytes, rpId: bytes, allowCredentials: seq<bytes>,
                                 hmacSecret: Option<HmacSecret.Input>)

  /** The early-exit search: the chosen ID, with its user on the discoverable path. */
  function Choose(env: Env, s: State, p: GetParams): Option<(bytes, Option<User>)> {
    var hash := env.HashRPID(p.rpId);
    if |p.allowCredentials| > 0 then
      var i := FirstSigning(env, p.allowCredentials, hash, env.CheckDigest());
      if i == |p.allowCredentials| then None
      else Some((p.allowCredentials[i], None))
    else if s.store.None? then None
    else
      var creds := ByRP(s.store.value.creds, p.rpId);
      var i := FirstSigning(env, Ids(creds), hash, env.CheckDigest());
      if i == |creds| then None
      else Some((creds[i].credentialId, Some(UserOf(creds[i]))))
  }

  function GetAssertionDirect(env: Env, s: State, p: GetParams): (State, Result<DirectAssertion, DirectError>)
    requires env.Lawful()
  {
    if |p.clientDataHash| != 32 then (s, Err(ErrInvalidParameter))
    else
      match Choose(env, s, p)
      case None => (s, Err(ErrNoCredentials))
      case Some((id, user)) =>
        var hash := env.HashRPID(p.rpId);
        match Extend(env, s.ecdhKey, id, p.hmacSecret)
        case Err(e) => (s, Err(ErrHmac(e)))
        case Ok(output) =>
          var (s', authData, signature) := SignData(env, s, id, hash, p.clientDataHash, output);
          match signature
          case None => (s', Err(ErrSign))
          case Some(sig) => (s', Ok(DirectAssertion(id, authData, sig, user, output)))
  }

  // ---------------------------------------------------------------- registration

  datatype CreateParams = CreateParams(
    clientDataHash: bytes, rpId: bytes, rpName: bytes, user: User, residentKey: bool, hmacSecret: bool,
    excludeList: seq<bytes>)

  /** What the backend, the clock and the file system do to one registration. */
  datatype Outcome = Outcome(key: Option<(bytes, nat, nat)>, createdAt: int, fault: Fault)

  function CredentialFor(p: CreateParams, id: bytes, x: nat, y: nat, createdAt: int): Credential {
    Credential(p.rpId, p.rpName, p.user.id, p.user.name, p.user.displayName, id,
               BigEndian.BigIntToBytes(x), BigEndian.BigIntToBytes(y), createdAt)
  }

  function Stored(env: Env, st: Store, creds: seq<Credential>, fault: Fault): Store {
    Store(creds, Written(st.files, env.codec.marshal(creds), fault))
  }

  /** The optional save of a new resident credential. */
  function Kept(env: Env, s: State, p: CreateParams, id: bytes, x: nat, y: nat, o: Outcome): State {
    if p.residentKey && s.store.Some? then
      var creds := Saved(s.store.value.creds, CredentialFor(p, id, x, y, o.createdAt));
      s.(store := Some(Stored(env, s.store.value, creds, o.fault)))
    else s
  }

  /** The attestation of a new key. */
  function Attest(env: Env, s: State, p: CreateParams, id: bytes, x: nat, y: nat): (State, Result<Created, DirectError>)
    requires env.Lawful()
  {
    var count := env.signer.counter(s.ticks);
    var authData := Layout(CreateData(env.HashRPID(p.rpId), env.Aaguid(), id, x, y, p.hmacSecret, count));
    var s' := s.(ticks := s.ticks + 1);
    match env.attest(env.crypto.sha256(authData + p.clientDataHash))
    case None => (s', Err(ErrAttest))
    case Some(sig) => (s', Ok(Created(id, authData, sig, x, y)))
  }

  /** Key creation, the optional save (whose failure is ignored) and the attestation. */
  function Register(env: Env, s: State, p: CreateParams, o: Outcome): (State, Result<Created, DirectError>)
    requires env.Lawful()
  {
    if o.key.None? then (s, Err(ErrRegister))
    else
      var (id, x, y) := o.key.value;
      Attest(env, Kept(env, s, p, id, x, y, o), p, id, x, y)
  }

  predicate Excluded(env: Env, p: CreateParams) {
    FirstSigning(env, p.excludeList, env.HashRPID(p.rpId), env.ExcludeDigest()) < |p.excludeList|
  }

  function MakeCredentialDirect(env: Env, s: State, p: CreateParams, o: Outcome): (State, Result<Created, DirectError>)
    requires env.Lawful()
  {
    if |p.clientDataHash| != 32 then (s, Err(ErrInvalidParameter))
    else if Excluded(env, p) then (s, Err(ErrExcluded))
    else Register(env, s, p, o)
  }

  function MakeCredential(env: Env, s: State, p: CreateParams, es256: bool, meanwhile: seq<P.Act>, o: Outcome)
    : (State, Reply)
    requires env.Lawful()
  {
    if |p.clientDataHash| != 32 then (s, Status(INVALID_PARAMETER))
    else if !es256 then (s, Status(UNSUPPORTED_EXTENSION))
    else if Excluded(env, p) then (s, Status(CREDENTIAL_EXCLUDED))
    else
      var (s1, k) := Ask(env, s, p.clientDataHash, p.rpId, meanwhile);
      if !P.AnswerTo(k).Granted? then (s1, Status(PresenceFailure(k)))
      else
        var (s', r) := Register(env, s1, p, o);
        (s', match r case Ok(c) => Attestation(c) case Err(_) => Status(OTHER))
  }

  // ---------------------------------------------------------------- commands

  /** A command as decoded from CBOR (`None`: undecodable), with what the user, the other goroutines
      and the backends do while it runs. */
  datatype Command =
    | CmdGetInfo
    | CmdMakeCredential(make: Option<(CreateParams, bool)>, meanwhile: seq<P.Act>, outcome: Outcome)
    | CmdGetAssertion(req: Option<AssertRequest>, meanwhile: seq<P.Act>)
    | CmdGetNextAssertion
    | CmdClientPIN(sub: Option<nat>, freshKey: Option<nat>)
    | CmdUnknown

  /** `ClientPIN` makes the agreement key on first use and keeps it. */
  function ClientPIN(env: Env, s: State, sub: Option<nat>, freshKey: Option<nat>): (State, Reply) {
    if sub.None? then (s, Status(INVALID_CBOR))
    else if sub.value != 2 then (s, Status(PIN_NOT_SET))
    else
      var key := if s.ecdhKey.Some? then s.ecdhKey else freshKey;
      if key.None? then (s, Status(OTHER))
      else
        var (x, y) := env.crypto.publicKey(key.value);
        (s.(ecdhKey := key), KeyAgreement(BigEndian.Coordinate(x), BigEndian.Coordinate(y)))
  }

  function HandleCommand(env: Env, s: State, cmd: Command): (State, Reply)
    requires env.Lawful()
  {
    match cmd
    case CmdGetInfo => (s, Info)
    case CmdMakeCredential(None, _, _) => (s, Status(INVALID_CBOR))
    case CmdMakeCredential(Some((p, es256)), meanwhile, o) => MakeCredential(env, s, p, es256, meanwhile, o)
    case CmdGetAssertion(None, _) => (s, Status(INVALID_CBOR))
    case CmdGetAssertion(Some(req), meanwhile) => GetAssertion(env, s, req, meanwhile)
    case CmdGetNextAssertion => GetNextAssertion(env, s)
    case CmdClientPIN(sub, freshKey) => ClientPIN(env, s, sub, freshKey)
    case CmdUnknown => (s, Status(INVALID_COMMAND))
  }

  /** Everything that can happen to one running authenticator; `Meanwhile` is what the presence
      protocol does between the handlers' own calls. */
  datatype Event =
    | Meanwhile(acts: seq<P.Act>)
    | Command(cmd: Command)
    | CreateDirect(p: CreateParams, outcome: Outcome)
    | GetDirect(g: GetParams)
    | SaveCredential(c: Credential, fault: Fault)
    | DeleteCredential(id: bytes, fault: Fault)

  function Step(env: Env, s: State, e: Event): (State, Reply)
    requires env.Lawful()
  {
    match e
    case Meanwhile(acts) => (s.(presence := P.Run(s.presence, acts)), NoReply)
    case Command(cmd) => HandleCommand(env, s, cmd)
    case CreateDirect(p, o) => var (s', r) := MakeCredentialDirect(env, s, p, o); (s', DirectCreate(r))
    case GetDirect(g) => var (s', r) := GetAssertionDirect(env, s, g); (s', DirectGet(r))
    case SaveCredential(c, fault) =>
      if s.store.None? then (s, StoreReply(false))
      else (s.(store := Some(Stored(env, s.store.value, Saved(s.store.value.creds, c), fault))),
            StoreReply(fault.NoFault?))
    case DeleteCredential(id, fault) =>
      if s.store.None? then (s, StoreReply(false))
      else if LastById(s.store.value.creds, id).None? then (s, StoreReply(true))
      else (s.(store := Some(Stored(env, s.store.value, Without(s.store.value.creds, id), fault))),
            StoreReply(fault.NoFault?))
  }

  function Run(env: Env, s: State, es: seq<Event>): State
    requires env.Lawful()
    decreases |es|
  {
    if es == [] then s else Run(env, Step(env, s, es[0]).0, es[1..])
  }
}
