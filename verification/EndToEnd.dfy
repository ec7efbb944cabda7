/** Statements that hold across the handler, the backend and the presence protocol. */
module EndToEnd {
  import opened Basics
  import opened Storage
  import opened A = Authenticator
  import opened W = WebAuthn
  import opened History
  import AuthData
  import P = Presence
  import Selection
  import T = Tpm
  import Enumeration

  // ---------------------------------------------------------------- the TPM backend

  /** The environment's signer is the TPM backend over `dev`. */
  ghost predicate Backed(env: Env, dev: T.Device) {
    && env.Lawful() && dev.Lawful()
    && (forall h, a, d :: env.signer.sign(h, a, d) == T.Signature(dev, h, a, d))
    && (forall h :: env.signer.credRandom(h) == T.CredRandom(dev, h))
    && (forall k, m :: env.crypto.hmac(k, m) == dev.hmac(k, m))
  }

  /** Whether the hardware signs does not depend on what it signs. */
  ghost predicate SteadyDevice(dev: T.Device) {
    forall t, pub, priv, d, e :: dev.sign(t, pub, priv, d).Some? <==> dev.sign(t, pub, priv, e).Some?
  }

  /** A TPM backend meets what the whole-history results ask of a signer, and no empty handle signs. */
  lemma TpmBackendIsIdeal(env: Env, dev: T.Device)
    requires Backed(env, dev) && SteadyDevice(dev)
    ensures Ideal(env) && forall a, d :: env.signer.sign([], a, d).None?
  {
    forall h, a, d, e
      ensures env.signer.sign(h, a, d).Some? <==> env.signer.sign(h, a, e).Some?
    {
      assert env.signer.sign(h, a, d) == T.Signature(dev, h, a, d);
      assert env.signer.sign(h, a, e) == T.Signature(dev, h, a, e);
    }
    assert T.Opened([]) == None;
  }

  /** A registered TPM key signs for a relying party exactly when its blobs fitted their frames
      and the hardware loads them under the primary key of that relying party; with a blob too long
      the registration still succeeds, with a handle that signs for nobody. */
  lemma RegisteredKeySignsIff(env: Env, dev: T.Device, k: T.Keys, rpIdHash: bytes)
    requires Backed(env, dev) && |k.seed| == T.SEED_SIZE
    ensures Signs(env, T.HandleOf(k), rpIdHash) <==>
            && |k.private| <= 255 && |k.public| <= 255
            && var stream := dev.hkdf(k.seed, Text("tpm-fido-application-key") + rpIdHash);
               dev.sign(T.Template(stream[..32], stream[32..]), k.public, k.private, env.CheckDigest()).Some?
  {
    T.RegisteredHandle(k);
    assert env.signer.sign(T.HandleOf(k), rpIdHash, env.CheckDigest())
        == T.Signature(dev, T.HandleOf(k), rpIdHash, env.CheckDigest());
  }

  /** Every registration of a TPM key reads back from its authenticator data, whatever the size
      of the blobs the TPM returned. */
  lemma TpmRegistrationsReadBack(env: Env, dev: T.Device, s: State, p: CreateParams, o: Outcome, k: T.Keys)
    requires Backed(env, dev) && |k.seed| == T.SEED_SIZE && o.key.Some? && o.key.value.0 == T.HandleOf(k)
    ensures var r := MakeCredentialDirect(env, s, p, o).1;
            r.Ok? ==> var ad := AuthData.Read(r.value.authData);
                      ad.Some? && ad.value.attested.Some? && ad.value.attested.value.credentialId == T.HandleOf(k)
  {
    T.HandleLength(k);
    Selection.RegistrationsAreBound(env, s, p, o);
  }

  // ---------------------------------------------------------------- PRF outputs

  predicate Decodable(e: PrfEval) {
    e.first.Some? && (e.second.Some? ==> e.second.value.Some?)
  }

  /** The outputs for a credential's random and salts, written out. */
  function OutputsFor(env: Env, credRandom: bytes, e: PrfEval): PrfOutputs
    requires Decodable(e)
  {
    PrfOutputs(
      env.crypto.hmac(credRandom, env.crypto.sha256(Text("WebAuthn PRF") + [0] + e.first.value)),
      if e.second.None? then None
      else Some(env.crypto.hmac(credRandom, env.crypto.sha256(Text("WebAuthn PRF") + [0] + e.second.value.value))))
  }

  /** The outputs that a page is given for one credential, for every backend. */
  lemma PrfOutcome(env: Env, id: bytes, eval: Option<PrfEval>)
    requires env.Lawful()
    ensures ComputePRFResult(env, id, eval)
         == if eval.None? then Ok(None)
            else if !Decodable(eval.value) then Err(InvalidPRFSalt)
            else if env.signer.credRandom(id).None? then Err(PRFFailed)
            else Ok(Some(OutputsFor(env, env.signer.credRandom(id).value, eval.value)))
  {
    if eval.Some? && Decodable(eval.value) && eval.value.second.Some? {
      assert |HashPRFSalt(env.crypto, eval.value.second.value.value)| == 32;
    }
  }

  /** The outputs for a TPM handle's seed. */
  function Expected(env: Env, seed: bytes, e: PrfEval): PrfOutputs
    requires Decodable(e)
  {
    OutputsFor(env, env.crypto.hmac(seed, Text("credential-random")), e)
  }

  /** The PRF of a registered TPM handle is a function of its seed and the salts alone; it fails
      exactly when a salt is undecodable or the handle was cut short at registration. */
  lemma PrfOfRegisteredHandle(env: Env, dev: T.Device, k: T.Keys, e: PrfEval)
    requires Backed(env, dev) && |k.seed| == T.SEED_SIZE
    ensures ComputePRFResult(env, T.HandleOf(k), Some(e)) ==
            if !Decodable(e) then Err(InvalidPRFSalt)
            else if |k.private| <= 255 && |k.public| <= 255 then Ok(Some(Expected(env, k.seed, e)))
            else Err(PRFFailed)
  {
    T.RegisteredHandle(k);
    assert env.signer.credRandom(T.HandleOf(k)) == T.CredRandom(dev, T.HandleOf(k));
    PrfOutcome(env, T.HandleOf(k), Some(e));
  }

  lemma PrfAtCreate(env: Env, dev: T.Device, cd: ClientData, k: T.Keys, e: PrfEval, s: State, req: CreateRequest,
                    meanwhile: seq<P.Act>, o: Outcome)
    requires Backed(env, dev) && |k.seed| == T.SEED_SIZE
    requires o.key.Some? && o.key.value.0 == T.HandleOf(k) && req.prf == Some(Some(e))
    ensures var r := Create(env, cd, s, Some(req), meanwhile, o).1;
            r.CreateReply? ==>
              r.created.credentialId == T.HandleOf(k) && Decodable(e) && r.prf == Some(Expected(env, k.seed, e))
  {
    PrfOfRegisteredHandle(env, dev, k, e);
  }

  /** The salts that a request gives for this credential: those for all, or its own. */
  predicate AsksFor(choice: PrfChoice, id: bytes, e: PrfEval) {
    choice == Eval(e) || (choice.EvalByCredential? && id in choice.m && choice.m[id] == e)
  }

  lemma PrfAtGet(env: Env, dev: T.Device, cd: ClientData, k: T.Keys, e: PrfEval, s: State, req: GetRequest,
                 meanwhile: seq<P.Act>)
    requires Backed(env, dev) && |k.seed| == T.SEED_SIZE
    ensures var r := Get(env, cd, s, Some(req), meanwhile).1;
            r.GetReply? && r.got.credentialId == T.HandleOf(k) && AsksFor(req.prf, T.HandleOf(k), e)
            ==> Decodable(e) && r.prf == Some(Expected(env, k.seed, e))
  {
    PrfOfRegisteredHandle(env, dev, k, e);
  }

  /** The outputs given at registration are the outputs given at any later use of the credential
      with the same salts: from any state at all, so through any events and restarts. */
  lemma PrfIsStable(env: Env, dev: T.Device, cd: ClientData, k: T.Keys, e: PrfEval,
                    s: State, creq: CreateRequest, atCreate: seq<P.Act>, o: Outcome,
                    t: State, greq: GetRequest, atGet: seq<P.Act>)
    requires Backed(env, dev) && |k.seed| == T.SEED_SIZE
    requires o.key.Some? && o.key.value.0 == T.HandleOf(k) && creq.prf == Some(Some(e))
    ensures var created := Create(env, cd, s, Some(creq), atCreate, o).1;
            var got := Get(env, cd, t, Some(greq), atGet).1;
            created.CreateReply? && got.GetReply? && got.got.credentialId == created.created.credentialId
            && AsksFor(greq.prf, got.got.credentialId, e)
            ==> got.prf == created.prf && Decodable(e) && created.prf == Some(Expected(env, k.seed, e))
  {
    PrfAtCreate(env, dev, cd, k, e, s, creq, atCreate, o);
    PrfAtGet(env, dev, cd, k, e, t, greq, atGet);
  }

  /** When the PRF cannot be computed the page is told of a failure, but the credential has been
      registered: the state is the same as for a success. */
  lemma FailedPrfStillRegisters(env: Env, cd: ClientData, s: State, req: CreateRequest, meanwhile: seq<P.Act>,
                                o: Outcome)
    requires env.Lawful() && req.challenge.Some? && req.userId.Some?
    ensures var p := ParamsOf(env, cd, req);
            var s' := Ask(env, s, p.clientDataHash, p.rpId, meanwhile).0;
            var (t, r) := Create(env, cd, s, Some(req), meanwhile, o);
            r == Failed(InvalidPRFSalt) || r == Failed(PRFFailed) ==>
              && MakeCredentialDirect(env, s', p, o).0 == t && MakeCredentialDirect(env, s', p, o).1.Ok? && o.key.Some?
              && (p.residentKey && s.store.Some? ==> t.store.Some? && NewCredential(p, o) in t.store.value.creds)
  {
    var p := ParamsOf(env, cd, req);
    var (s', k) := Ask(env, s, p.clientDataHash, p.rpId, meanwhile);
    assert WaitError(k) != InvalidPRFSalt && WaitError(k) != PRFFailed;
    if p.residentKey && s.store.Some? && o.key.Some? {
      CreateEdits(env, s', p, o);
      SavedMembers(s.store.value.creds, NewCredential(p, o));
    }
  }

  // ---------------------------------------------------------------- presence

  /** A page is told of a timeout exactly when its own wait ended, or when the confirmation command
      failed with one particular text; a prompt that ran out of time is reported as a denial. */
  lemma TimeoutReportedIff(k: P.Caller)
    requires !k.Waiting? && !P.AnswerTo(k).Granted?
    ensures WaitError(k) == Timeout <==>
            k.Expired? || (k.Got? && k.v == P.Denied(P.CommandFailed(Text("fingerprint verification timed out"))))
    ensures k.Got? && k.v == P.Denied(P.PromptTimedOut) ==> WaitError(k) == UserDenied
  {
    assert |ErrorText(P.PromptTimedOut)| != |FINGERPRINT_TIMEOUT| && |ErrorText(P.NoMethod)| != |FINGERPRINT_TIMEOUT|;
  }

  /** The three ways a page's registration can leave the state. */
  lemma CreateShape(env: Env, cd: ClientData, s: State, req: Option<CreateRequest>, meanwhile: seq<P.Act>, o: Outcome)
    requires env.Lawful()
    ensures var (t, r) := Create(env, cd, s, req, meanwhile, o);
            if !Acceptable(req) then t == s && r.Failed?
            else
              var p := ParamsOf(env, cd, req.value);
              var s' := Ask(env, s, p.clientDataHash, p.rpId, meanwhile).0;
              if !Consents(env, s, p.clientDataHash, p.rpId, meanwhile) then t == s' && r.Failed?
              else t == MakeCredentialDirect(env, s', p, o).0
  {}

  /** What a page's requests do to the authenticator is history like any other: the results about
      whole histories hold with any number of them among the events. */
  lemma CreateIsHistory(env: Env, cd: ClientData, s: State, req: Option<CreateRequest>, meanwhile: seq<P.Act>,
                        o: Outcome)
    returns (es: seq<Event>)
    requires env.Lawful()
    ensures Create(env, cd, s, req, meanwhile, o).0 == Run(env, s, es)
    ensures req.Some? && GenuineKey(env, req.value.rpId, o) ==> AllGenuine(env, es)
  {
    CreateShape(env, cd, s, req, meanwhile, o);
    if !Acceptable(req) {
      return [];
    }
    var p := ParamsOf(env, cd, req.value);
    var pair := PairOf(env, p.clientDataHash, p.rpId);
    var e := Meanwhile(P.StepsOfWait(s.presence, pair, meanwhile));
    var s' := Ask(env, s, p.clientDataHash, p.rpId, meanwhile).0;
    P.AwaitIsRun(s.presence, pair, meanwhile);
    assert Step(env, s, e).0 == s';
    if !Consents(env, s, p.clientDataHash, p.rpId, meanwhile) {
      OneEvent(env, s, e);
      return [e];
    }
    es := [e, CreateDirect(p, o)];
    assert es[1..] == [CreateDirect(p, o)];
    OneEvent(env, s', CreateDirect(p, o));
  }

  lemma GetIsHistory(env: Env, cd: ClientData, s: State, req: Option<GetRequest>, meanwhile: seq<P.Act>)
    returns (es: seq<Event>)
    requires env.Lawful()
    ensures Get(env, cd, s, req, meanwhile).0 == Run(env, s, es)
    ensures AllGenuine(env, es)
  {
    if req.None? || req.value.challenge.None? {
      return [];
    }
    var p := GetParamsOf(env, cd, req.value);
    var pair := PairOf(env, p.clientDataHash, p.rpId);
    var e := Meanwhile(P.StepsOfWait(s.presence, pair, meanwhile));
    var s' := Ask(env, s, p.clientDataHash, p.rpId, meanwhile).0;
    P.AwaitIsRun(s.presence, pair, meanwhile);
    assert Step(env, s, e).0 == s';
    if !Consents(env, s, p.clientDataHash, p.rpId, meanwhile) {
      OneEvent(env, s, e);
      return [e];
    }
    es := [e, GetDirect(p)];
    assert es[1..] == [GetDirect(p)];
    OneEvent(env, s', GetDirect(p));
  }

  lemma OneEvent(env: Env, s: State, e: Event)
    requires env.Lawful()
    ensures Run(env, s, [e]) == Step(env, s, e).0
  {
    assert [e][1..] == [];
  }

  /** At any moment of any history, a page receives a new credential, or more than the presence
      protocol changes, only if the user approved a prompt for that page's own client data and
      relying party, and that approval released nobody else, then or ever after. */
  lemma CreateNeedsOwnApproval(env: Env, s: State, es: seq<Event>, cd: ClientData, req: CreateRequest,
                               meanwhile: seq<P.Act>, o: Outcome, later: seq<Event>)
    requires env.Lawful() && s.presence == P.INITIAL && req.challenge.Some?
    ensures var u := Run(env, s, es);
            var (t, r) := Create(env, cd, u, Some(req), meanwhile, o);
            t != u.(presence := t.presence) || r.CreateReply? ==>
              P.ReleasedBy(Run(env, t, later).presence, CallerIn(u),
                           PairOf(env, Hash(env, CreateJSON(cd, req)), req.rpId))
  {
    var u := Run(env, s, es);
    var (t, r) := Create(env, cd, u, Some(req), meanwhile, o);
    CreateNeedsConsent(env, cd, u, req, meanwhile, o);
    if t != u.(presence := t.presence) || r.CreateReply? {
      GrantedInHistory(env, s, es, Hash(env, CreateJSON(cd, req)), req.rpId, meanwhile, t, later);
    }
  }

  lemma CreateNeedsConsent(env: Env, cd: ClientData, s: State, req: CreateRequest, meanwhile: seq<P.Act>, o: Outcome)
    requires env.Lawful() && req.challenge.Some?
    ensures var hash := Hash(env, CreateJSON(cd, req));
            var (t, r) := Create(env, cd, s, Some(req), meanwhile, o);
            t != s.(presence := t.presence) || r.CreateReply? ==>
              && Consents(env, s, hash, req.rpId, meanwhile)
              && t.presence == Ask(env, s, hash, req.rpId, meanwhile).0.presence
  {
    CreateShape(env, cd, s, Some(req), meanwhile, o);
    if Acceptable(Some(req)) {
      var s' := Ask(env, s, Hash(env, CreateJSON(cd, req)), req.rpId, meanwhile).0;
      Enumeration.RegisterFrame(env, s', ParamsOf(env, cd, req), o);
    }
  }

  lemma GetNeedsOwnApproval(env: Env, s: State, es: seq<Event>, cd: ClientData, req: GetRequest,
                            meanwhile: seq<P.Act>, later: seq<Event>)
    requires env.Lawful() && s.presence == P.INITIAL && req.challenge.Some?
    ensures var u := Run(env, s, es);
            var (t, r) := Get(env, cd, u, Some(req), meanwhile);
            t != u.(presence := t.presence) || r.GetReply? ==>
              P.ReleasedBy(Run(env, t, later).presence, CallerIn(u), PairOf(env, Hash(env, GetJSON(cd, req)), req.rpId))
  {
    var u := Run(env, s, es);
    var (t, r) := Get(env, cd, u, Some(req), meanwhile);
    GetNeedsConsent(env, cd, u, req, meanwhile);
    if t != u.(presence := t.presence) || r.GetReply? {
      GrantedInHistory(env, s, es, Hash(env, GetJSON(cd, req)), req.rpId, meanwhile, t, later);
    }
  }

  lemma GetNeedsConsent(env: Env, cd: ClientData, s: State, req: GetRequest, meanwhile: seq<P.Act>)
    requires env.Lawful() && req.challenge.Some?
    ensures var hash := Hash(env, GetJSON(cd, req));
            var (t, r) := Get(env, cd, s, Some(req), meanwhile);
            t != s.(presence := t.presence) || r.GetReply? ==>
              && Consents(env, s, hash, req.rpId, meanwhile)
              && t.presence == Ask(env, s, hash, req.rpId, meanwhile).0.presence
  {}
}
