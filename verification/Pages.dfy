/** Every way a page's request can end, told from the request's own fields, and that approved requests
    get through. */
module Pages {
  import opened Basics
  import opened Storage
  import opened A = Authenticator
  import opened W = WebAuthn
  import opened Outcomes
  import opened EndToEnd
  import Enumeration
  import History
  import P = Presence
  import Selection

  // ---------------------------------------------------------------- decoded lists

  /** A list keeps what decodes, and nothing else. */
  lemma {:induction false} DecodedMembers(ids: seq<Option<bytes>>)
    ensures forall x :: x in Decoded(ids) <==> Some(x) in ids
  {
    if ids != [] {
      DecodedMembers(ids[..|ids| - 1]);
      assert ids == ids[..|ids| - 1] + [ids[|ids| - 1]];
    }
  }

  /** In order. */
  lemma {:induction false} DecodedConcat(a: seq<Option<bytes>>, b: seq<Option<bytes>>)
    ensures Decoded(a + b) == Decoded(a) + Decoded(b)
  {
    if b == [] {
      assert a + b == a;
    } else {
      assert (a + b)[..|a + b| - 1] == a + b[..|b| - 1];
      DecodedConcat(a, b[..|b| - 1]);
    }
  }

  lemma {:induction false} DecodedAll(ids: seq<bytes>)
    ensures Decoded(seq(|ids|, i requires 0 <= i < |ids| => Some(ids[i]))) == ids
  {
    var all := seq(|ids|, i requires 0 <= i < |ids| => Some(ids[i]));
    if ids != [] {
      var front := ids[..|ids| - 1];
      DecodedAll(front);
      assert all[..|all| - 1] == seq(|front|, i requires 0 <= i < |front| => Some(front[i]));
    }
  }

  /** What comes before an entry that decodes comes before it in the decoded list. */
  lemma DecodedSplits(ids: seq<Option<bytes>>, i: nat)
    requires i < |ids| && ids[i].Some?
    ensures Decoded(ids) == Decoded(ids[..i]) + [ids[i].value] + Decoded(ids[i + 1..])
  {
    var before, one, after := ids[..i], [ids[i]], ids[i + 1..];
    assert ids == before + (one + after);
    DecodedConcat(before, one + after);
    DecodedConcat(one, after);
    DecodedOne(ids[i].value);
    Assoc(Decoded(before), [ids[i].value], Decoded(after));
  }

  lemma DecodedOne(x: bytes)
    ensures Decoded([Some(x)]) == [x]
  {
    var one := [Some(x)];
    assert one[..0] == [];
  }

  // ---------------------------------------------------------------- registration

  function CreateClientData(cd: ClientData, req: CreateRequest): bytes
    requires req.challenge.Some?
  {
    cd(Text("webauthn.create"), req.challenge.value, req.origin)
  }

  /** The error of a wait that ended at `end` without an approval. */
  function WaitFailure(end: P.Caller): WebError {
    if end.Waiting? || end.Expired? then Timeout
    else if end.Got? && end.v == P.Denied(P.CommandFailed(Text("fingerprint verification timed out"))) then Timeout
    else UserDenied
  }

  lemma WaitErrorIs(s: P.State, pair: P.Pair, meanwhile: seq<P.Act>)
    requires !P.Approves(s, pair, meanwhile)
    ensures WaitError(P.Await(s, pair, meanwhile).1) == WaitFailure(P.EndOf(s, pair, meanwhile))
  {
    P.AwaitEnds(s, pair, meanwhile);
    var k := P.Await(s, pair, meanwhile).1;
    TimeoutReportedIff(k);
  }

  /** What the page's registration asks of the authenticator, field by field. */
  function ParamsFor(env: Env, cd: ClientData, req: CreateRequest): CreateParams
    requires req.challenge.Some? && req.userId.Some?
  {
    CreateParams(
      env.crypto.sha256(CreateClientData(cd, req)), req.rpId, req.rpName,
      User(req.userId.value, req.userName, req.userDisplayName),
      WantsResident(req), req.prf.Some?, Decoded(req.exclude))
  }

  /** A page's registration: refused as malformed, reported as a timeout or a denial, or, once
      approved, exactly the direct registration. */
  lemma CreateOutcome(env: Env, cd: ClientData, s: State, req: Option<CreateRequest>, meanwhile: seq<P.Act>, o: Outcome)
    requires env.Lawful()
    ensures var (t, r) := Create(env, cd, s, req, meanwhile, o);
            if req.None? || req.value.challenge.None? || req.value.userId.None? || !req.value.es256 then
              t == s && r == Failed(TypeError)
            else
              var p := ParamsFor(env, cd, req.value);
              var end := P.EndOf(s.presence, P.Pair(p.clientDataHash, env.crypto.sha256(req.value.rpId)), meanwhile);
              if !(end.Got? && end.v == P.Approved) then
                t == s.(presence := t.presence) && r == Failed(WaitFailure(end))
              else
                var (u, d) := MakeCredentialDirect(env, s.(presence := t.presence), p, o);
                t == u && CreateAnswers(env, cd, req.value, d, r)
  {
    if Acceptable(req) {
      var p := ParamsFor(env, cd, req.value);
      assert p == ParamsOf(env, cd, req.value);
      var pair := PairOf(env, p.clientDataHash, p.rpId);
      if !P.Approves(s.presence, pair, meanwhile) {
        WaitErrorIs(s.presence, pair, meanwhile);
      } else {
        var s' := Ask(env, s, p.clientDataHash, p.rpId, meanwhile).0;
        Enumeration.RegisterFrame(env, s', p, o);
        ApprovedCreate(env, cd, s, req.value, meanwhile, o);
      }
    }
  }

  /** The page's answer to the outcome of its registration. */
  ghost predicate CreateAnswers(env: Env, cd: ClientData, req: CreateRequest, d: Result<Created, DirectError>,
                                r: WebReply)
    requires env.Lawful() && req.challenge.Some?
  {
    match d
    case Err(ErrExcluded) => r == Failed(Excluded)
    case Err(_) => r == Failed(Unknown)
    case Ok(c) =>
      match ComputePRFResult(env, c.credentialId, if req.prf.None? then None else req.prf.value)
      case Err(e) => r == Failed(e)
      case Ok(prf) => r == CreateReply(c, CreateClientData(cd, req), prf)
  }

  lemma ApprovedCreate(env: Env, cd: ClientData, s: State, req: CreateRequest, meanwhile: seq<P.Act>, o: Outcome)
    requires env.Lawful() && Acceptable(Some(req))
    requires var p := ParamsOf(env, cd, req); Consents(env, s, p.clientDataHash, p.rpId, meanwhile)
    ensures var p := ParamsOf(env, cd, req);
            var (t, r) := Create(env, cd, s, Some(req), meanwhile, o);
            var (u, d) := MakeCredentialDirect(env, Ask(env, s, p.clientDataHash, p.rpId, meanwhile).0, p, o);
            t == u && CreateAnswers(env, cd, req, d, r)
  {}

  /** With nothing active, the two steps of an approval turn a well-formed request into exactly the
      direct registration, and a denial into a denial. */
  lemma CreateGoesThrough(env: Env, cd: ClientData, s: State, req: CreateRequest, v: P.Verdict, o: Outcome)
    requires env.Lawful() && s.presence.active.None?
    requires req.challenge.Some? && req.userId.Some? && req.es256
    ensures var (t, r) := Create(env, cd, s, Some(req), P.Deciding(s.presence, v), o);
            if v == P.Approved then
              var (u, d) := MakeCredentialDirect(env, s.(presence := t.presence), ParamsFor(env, cd, req), o);
              t == u && CreateAnswers(env, cd, req, d, r)
            else t == s.(presence := t.presence) && (r == Failed(UserDenied) || r == Failed(Timeout))
  {
    var pair := P.Pair(env.crypto.sha256(CreateClientData(cd, req)), env.crypto.sha256(req.rpId));
    P.VerdictArrives(s.presence, pair, v);
    CreateOutcome(env, cd, s, Some(req), P.Deciding(s.presence, v), o);
  }

  /** A page that is given a credential is given the client data that was attested with it. */
  lemma CreatedIsCertified(env: Env, cd: ClientData, s: State, req: CreateRequest, meanwhile: seq<P.Act>, o: Outcome)
    requires env.Lawful()
    ensures var r := Create(env, cd, s, Some(req), meanwhile, o).1;
            r.CreateReply? ==> CertifiedReply(env, cd, req, r.created, r.clientDataJSON, env.signer.counter(s.ticks))
  {
    CreateOutcome(env, cd, s, Some(req), meanwhile, o);
    if Acceptable(Some(req)) {
      var p := ParamsFor(env, cd, req);
      var t := Create(env, cd, s, Some(req), meanwhile, o).0;
      Selection.RegistrationsAreBound(env, s.(presence := t.presence), p, o);
    }
  }

  ghost predicate CertifiedReply(env: Env, cd: ClientData, req: CreateRequest, c: Created, json: bytes, count: nat)
    requires env.Lawful()
  {
    && req.challenge.Some? && req.userId.Some?
    && json == cd(Text("webauthn.create"), req.challenge.value, req.origin)
    && env.attest(env.crypto.sha256(c.authData + env.crypto.sha256(json))) == Some(c.signature)
    && Selection.Certified(env, ParamsFor(env, cd, req), c, count)
  }

  /** An excluded credential that works stops the registration, wherever in the page's list it is. */
  lemma ExcludedEntryStops(env: Env, cd: ClientData, s: State, req: CreateRequest, meanwhile: seq<P.Act>, o: Outcome,
                           id: bytes)
    requires History.Ideal(env) && req.challenge.Some? && req.userId.Some? && req.es256
    requires Some(id) in req.exclude && Works(env, id, req.rpId)
    ensures var (t, r) := Create(env, cd, s, Some(req), meanwhile, o);
            t == s.(presence := t.presence)
            && (Consents(env, s, env.crypto.sha256(CreateClientData(cd, req)), req.rpId, meanwhile) ==>
                  r == Failed(Excluded))
  {
    CreateOutcome(env, cd, s, Some(req), meanwhile, o);
    DecodedMembers(req.exclude);
    var p := ParamsFor(env, cd, req);
    var t := Create(env, cd, s, Some(req), meanwhile, o).0;
    History.ExclusionBlocks(env, s.(presence := t.presence), p, true, meanwhile, o, id);
  }

  /** A registration stores the user that the page named, exactly when the page asked for a resident
      key, as required or preferred. */
  lemma PageUserIsStored(env: Env, cd: ClientData, s: State, req: CreateRequest, meanwhile: seq<P.Act>, o: Outcome)
    requires env.Lawful() && s.store.Some?
    ensures var (t, r) := Create(env, cd, s, Some(req), meanwhile, o);
            r.CreateReply? ==>
              if WantsResident(req) then StoresUser(t, req, r.created.credentialId) else t.store == s.store
  {
    CreateOutcome(env, cd, s, Some(req), meanwhile, o);
    var (t, r) := Create(env, cd, s, Some(req), meanwhile, o);
    if r.CreateReply? {
      var p := ParamsFor(env, cd, req);
      var s' := s.(presence := t.presence);
      DirectCreateOutcome(env, s', p, o);
      Selection.RegistrationsAreBound(env, s', p, o);
      if p.residentKey {
        var i := RegistrationStoresUser(env, s', p, o);
        assert t.store.value.creds[i] in t.store.value.creds;
      }
    }
  }

  predicate WantsResident(req: CreateRequest) {
    req.residentKey == Text("required") || req.residentKey == Text("preferred")
  }

  ghost predicate StoresUser(t: State, req: CreateRequest, id: bytes) {
    && t.store.Some? && req.userId.Some?
    && exists c :: c in t.store.value.creds && c.credentialId == id && c.rpId == req.rpId && c.rpName == req.rpName
         && c.userId == req.userId.value && c.userName == req.userName && c.userDisplayName == req.userDisplayName
  }

  // ---------------------------------------------------------------- assertion

  function GetClientData(cd: ClientData, req: GetRequest): bytes
    requires req.challenge.Some?
  {
    cd(Text("webauthn.get"), req.challenge.value, req.origin)
  }

  function GetParamsFor(env: Env, cd: ClientData, req: GetRequest): GetParams
    requires req.challenge.Some?
  {
    GetParams(env.crypto.sha256(GetClientData(cd, req)), req.rpId, Decoded(req.allow), None)
  }

  /** The page's answer to the outcome of its assertion. */
  ghost predicate GetAnswers(env: Env, cd: ClientData, req: GetRequest, d: Result<DirectAssertion, DirectError>,
                             r: WebReply)
    requires env.Lawful() && req.challenge.Some?
  {
    match d
    case Err(ErrNoCredentials) => r == Failed(NoCredential)
    case Err(_) => r == Failed(Unknown)
    case Ok(a) =>
      if req.prf.EvalByCredential? && (forall i :: 0 <= i < |req.allow| ==> req.allow[i].None?) then
        r == Failed(InvalidParameters)
      else
        var id := a.credentialId;
        var eval := if req.prf.Eval? then Some(req.prf.e)
                    else if req.prf.EvalByCredential? && id in req.prf.m then Some(req.prf.m[id])
                    else None;
        match ComputePRFResult(env, a.credentialId, eval)
        case Err(e) => r == Failed(e)
        case Ok(prf) => r == GetReply(a, GetClientData(cd, req), prf)
  }

  lemma DecodedEmpty(ids: seq<Option<bytes>>)
    ensures Decoded(ids) == [] <==> forall i :: 0 <= i < |ids| ==> ids[i].None?
  {
    DecodedMembers(ids);
    if Decoded(ids) != [] {
      assert Decoded(ids)[0] in Decoded(ids);
    }
    forall i | Decoded(ids) == [] && 0 <= i < |ids|
      ensures ids[i].None?
    {
      assert ids[i] in ids;
    }
  }

  /** A page's assertion: refused as malformed, reported as a timeout or a denial, or, once approved,
      exactly the direct assertion. */
  lemma GetOutcome(env: Env, cd: ClientData, s: State, req: Option<GetRequest>, meanwhile: seq<P.Act>)
    requires env.Lawful()
    ensures var (t, r) := Get(env, cd, s, req, meanwhile);
            if req.None? || req.value.challenge.None? then t == s && r == Failed(TypeError)
            else
              var p := GetParamsFor(env, cd, req.value);
              var end := P.EndOf(s.presence, P.Pair(p.clientDataHash, env.crypto.sha256(req.value.rpId)), meanwhile);
              if !(end.Got? && end.v == P.Approved) then
                t == s.(presence := t.presence) && r == Failed(WaitFailure(end))
              else
                var (u, d) := GetAssertionDirect(env, s.(presence := t.presence), p);
                t == u && GetAnswers(env, cd, req.value, d, r)
  {
    if req.Some? && req.value.challenge.Some? {
      var p := GetParamsFor(env, cd, req.value);
      assert p == GetParamsOf(env, cd, req.value);
      var pair := PairOf(env, p.clientDataHash, p.rpId);
      if !P.Approves(s.presence, pair, meanwhile) {
        WaitErrorIs(s.presence, pair, meanwhile);
      } else {
        Enumeration.DirectFrame(env, Ask(env, s, p.clientDataHash, p.rpId, meanwhile).0, p);
        ApprovedGet(env, cd, s, req.value, meanwhile);
      }
    }
  }

  lemma ApprovedGet(env: Env, cd: ClientData, s: State, req: GetRequest, meanwhile: seq<P.Act>)
    requires env.Lawful() && req.challenge.Some?
    requires var p := GetParamsOf(env, cd, req); Consents(env, s, p.clientDataHash, p.rpId, meanwhile)
    ensures var p := GetParamsOf(env, cd, req);
            var (t, r) := Get(env, cd, s, Some(req), meanwhile);
            var (u, d) := GetAssertionDirect(env, Ask(env, s, p.clientDataHash, p.rpId, meanwhile).0, p);
            t == u && GetAnswers(env, cd, req, d, r)
  {
    DecodedEmpty(req.allow);
  }

  lemma GetGoesThrough(env: Env, cd: ClientData, s: State, req: GetRequest, v: P.Verdict)
    requires env.Lawful() && s.presence.active.None? && req.challenge.Some?
    ensures var (t, r) := Get(env, cd, s, Some(req), P.Deciding(s.presence, v));
            if v == P.Approved then
              var (u, d) := GetAssertionDirect(env, s.(presence := t.presence), GetParamsFor(env, cd, req));
              t == u && GetAnswers(env, cd, req, d, r)
            else t == s.(presence := t.presence) && (r == Failed(UserDenied) || r == Failed(Timeout))
  {
    var pair := P.Pair(env.crypto.sha256(GetClientData(cd, req)), env.crypto.sha256(req.rpId));
    P.VerdictArrives(s.presence, pair, v);
    GetOutcome(env, cd, s, Some(req), P.Deciding(s.presence, v));
  }

  /** A page that is given an assertion is given the client data that was signed with it; pages never
      get the encrypted extension. */
  lemma GotIsBound(env: Env, cd: ClientData, s: State, req: GetRequest, meanwhile: seq<P.Act>)
    requires env.Lawful()
    ensures var r := Get(env, cd, s, Some(req), meanwhile).1;
            r.GetReply? ==>
              BoundReply(env, cd, req, r.got, r.clientDataJSON, env.signer.counter(s.ticks))
  {
    GetOutcome(env, cd, s, Some(req), meanwhile);
    if req.challenge.Some? {
      var t := Get(env, cd, s, Some(req), meanwhile).0;
      Selection.DirectIsBound(env, s.(presence := t.presence), GetParamsFor(env, cd, req));
    }
  }

  ghost predicate BoundReply(env: Env, cd: ClientData, req: GetRequest, a: DirectAssertion, json: bytes, count: nat)
    requires env.Lawful()
  {
    && req.challenge.Some? && json == cd(Text("webauthn.get"), req.challenge.value, req.origin)
    && Selection.Bound(env, Assertion(a.credentialId, a.authData, a.signature, a.user, 0), env.crypto.sha256(req.rpId),
                       env.crypto.sha256(json), None, None, count)
  }

  /** An approved assertion uses the first entry of the page's own list that decodes and works. */
  lemma FirstEntryIsUsed(env: Env, cd: ClientData, s: State, req: GetRequest, meanwhile: seq<P.Act>, i: nat)
    requires History.Ideal(env) && req.challenge.Some? && i < |req.allow| && req.allow[i].Some?
    requires Works(env, req.allow[i].value, req.rpId)
    requires forall j :: 0 <= j < i && req.allow[j].Some? ==> !Works(env, req.allow[j].value, req.rpId)
    requires Consents(env, s, env.crypto.sha256(GetClientData(cd, req)), req.rpId, meanwhile)
    ensures var r := Get(env, cd, s, Some(req), meanwhile).1;
            && r != Failed(NoCredential) && r != Failed(Unknown) && r != Failed(InvalidParameters)
            && (r.GetReply? ==> r.got.credentialId == req.allow[i].value && r.got.user == None)
            && (req.prf == NoPrf ==> r.GetReply? && r.prf == None)
  {
    GetOutcome(env, cd, s, Some(req), meanwhile);
    var p := GetParamsFor(env, cd, req);
    var t := Get(env, cd, s, Some(req), meanwhile).0;
    var k := |Decoded(req.allow[..i])|;
    DecodedSplits(req.allow, i);
    DecodedMembers(req.allow[..i]);
    forall j | 0 <= j < k
      ensures !Works(env, p.allowCredentials[j], p.rpId)
    {
      assert p.allowCredentials[j] == Decoded(req.allow[..i])[j];
      assert Decoded(req.allow[..i])[j] in Decoded(req.allow[..i]);
    }
    assert FirstAllowed(env, p, k);
    DirectGetOutcome(env, s.(presence := t.presence), p);
  }

  /** A list none of whose entries decodes is no list: the assertion becomes discoverable. One with an
      entry that decodes but none that works finds nothing. */
  lemma NothingUsable(env: Env, cd: ClientData, s: State, req: GetRequest, meanwhile: seq<P.Act>)
    requires History.Ideal(env) && req.challenge.Some?
    requires Consents(env, s, env.crypto.sha256(GetClientData(cd, req)), req.rpId, meanwhile)
    ensures var r := Get(env, cd, s, Some(req), meanwhile).1;
            r == Failed(NoCredential) <==> !PageFinds(env, s, req)
  {
    GetOutcome(env, cd, s, Some(req), meanwhile);
    var p := GetParamsFor(env, cd, req);
    var t := Get(env, cd, s, Some(req), meanwhile).0;
    var s' := s.(presence := t.presence);
    UsableIsFound(env, cd, s', req);
    NoCredentialIff(env, s', p);
  }

  /** A credential that works is among the entries that decode, or, when none decodes, among the stored
      ones of the relying party. */
  ghost predicate PageFinds(env: Env, s: State, req: GetRequest) {
    if forall i :: 0 <= i < |req.allow| ==> req.allow[i].None? then
      s.store.Some? && exists c :: c in s.store.value.creds && WorksFor(env, c, req.rpId)
    else exists id :: Some(id) in req.allow && Works(env, id, req.rpId)
  }

  lemma UsableIsFound(env: Env, cd: ClientData, s: State, req: GetRequest)
    requires req.challenge.Some?
    ensures Usable(env, s, GetParamsFor(env, cd, req)) <==> PageFinds(env, s, req)
  {
    DecodedEmpty(req.allow);
    DecodedMembers(req.allow);
    NothingUsableIff(env, s, GetParamsFor(env, cd, req));
  }

  lemma NoCredentialIff(env: Env, s: State, p: GetParams)
    requires History.Ideal(env) && |p.clientDataHash| == 32
    ensures GetAssertionDirect(env, s, p).1 == Err(ErrNoCredentials) <==> !Usable(env, s, p)
  {
    DirectGetOutcome(env, s, p);
    if Usable(env, s, p) {
      UsableFails(env, s, p);
    }
  }
}
