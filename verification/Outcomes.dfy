/** Every way each command can end, told from its request, the store and the steps of its wait. */
module Outcomes {
  import opened Basics
  import opened Storage
  import opened A = Authenticator
  import opened Selection
  import opened Crypto
  import BigEndian
  import AuthData
  import Enumeration
  import History
  import HmacSecret
  import P = Presence

  // ---------------------------------------------------------------- registration

  /** Some excluded credential works for the relying party. */
  ghost predicate ExcludedOneSigns(env: Env, p: CreateParams) {
    exists i :: 0 <= i < |p.excludeList| &&
      env.signer.sign(p.excludeList[i], env.crypto.sha256(p.rpId), env.crypto.sha256(Text("exclude-check"))).Some?
  }

  lemma ExcludedIff(env: Env, p: CreateParams)
    ensures Excluded(env, p) <==> ExcludedOneSigns(env, p)
  {
    var i := FirstSigning(env, p.excludeList, env.HashRPID(p.rpId), env.ExcludeDigest());
    if i < |p.excludeList| {
      assert env.signer.sign(p.excludeList[i], env.HashRPID(p.rpId), env.ExcludeDigest()).Some?;
    }
  }

  /** A direct registration is refused for exactly these reasons, in this order, and a refusal
      before the key is made changes nothing. */
  lemma DirectCreateOutcome(env: Env, s: State, p: CreateParams, o: Outcome)
    requires env.Lawful()
    ensures var (t, r) := MakeCredentialDirect(env, s, p, o);
            if |p.clientDataHash| != 32 then t == s && r == Err(ErrInvalidParameter)
            else if ExcludedOneSigns(env, p) then t == s && r == Err(ErrExcluded)
            else if o.key.None? then t == s && r == Err(ErrRegister)
            else
              && t.ticks == s.ticks + 1 && t == s.(store := t.store, ticks := t.ticks)
              && (r.Ok? || r == Err(ErrAttest))
              && (!p.residentKey || s.store.None? ==> t.store == s.store)
  {
    ExcludedIff(env, p);
  }

  /** The command's statuses on the wire, and that an approved registration is the direct one. */
  lemma MakeCredentialOutcome(env: Env, s: State, p: CreateParams, es256: bool, meanwhile: seq<P.Act>, o: Outcome)
    requires env.Lawful()
    ensures var (t, r) := MakeCredential(env, s, p, es256, meanwhile, o);
            var end := P.EndOf(s.presence, P.Pair(p.clientDataHash, env.crypto.sha256(p.rpId)), meanwhile);
            if |p.clientDataHash| != 32 then t == s && r == Status(0x02)
            else if !es256 then t == s && r == Status(0x16)
            else if ExcludedOneSigns(env, p) then t == s && r == Status(0x19)
            else if !(end.Got? && end.v == P.Approved) then
              && t == s.(presence := t.presence)
              && r == Status(if end.Waiting? || end.Expired? then 0x2f else 0x27)
            else
              var (u, d) := MakeCredentialDirect(env, s.(presence := t.presence), p, o);
              t == u && r == if d.Ok? then Attestation(d.value) else Status(0x7f)
  {
    ExcludedIff(env, p);
    P.AwaitEnds(s.presence, PairOf(env, p.clientDataHash, p.rpId), meanwhile);
    Enumeration.RegisterFrame(env, Ask(env, s, p.clientDataHash, p.rpId, meanwhile).0, p, o);
  }

  /** What a resident registration puts into the store: the request's relying party and user, the
      new ID and the new key, in the place of the first credential of that user or at the end. */
  lemma RegistrationStoresUser(env: Env, s: State, p: CreateParams, o: Outcome) returns (i: nat)
    requires env.Lawful() && s.store.Some?
    requires p.residentKey && o.key.Some? && |p.clientDataHash| == 32 && !ExcludedOneSigns(env, p)
    ensures i <= |s.store.value.creds|
    ensures forall j :: 0 <= j < i ==>
              s.store.value.creds[j].rpId != p.rpId || s.store.value.creds[j].userId != p.user.id
    ensures i < |s.store.value.creds| ==>
              s.store.value.creds[i].rpId == p.rpId && s.store.value.creds[i].userId == p.user.id
    ensures var t := MakeCredentialDirect(env, s, p, o).0;
            && t.store.Some? && |t.store.value.creds| > i
            && var c := t.store.value.creds[i];
               && t.store.value.creds == (if i < |s.store.value.creds| then s.store.value.creds[i := c]
                                          else s.store.value.creds + [c])
               && Describes(c, p, o)
  {
    var c := History.NewCredential(p, o);
    ExcludedIff(env, p);
    History.CreateEdits(env, s, p, o);
    i := SavedPlace(s.store.value.creds, c);
    NewIsDescribed(p, o);
    assert Saved(s.store.value.creds, c)[i] == c;
  }

  lemma NewIsDescribed(p: CreateParams, o: Outcome)
    requires o.key.Some?
    ensures Describes(History.NewCredential(p, o), p, o)
  {
    BigEndian.BigIntValue(o.key.value.1);
    BigEndian.BigIntValue(o.key.value.2);
  }

  /** The stored credential is the registered one: the request's relying party and user, the new ID and
      the coordinates of the new key. */
  ghost predicate Describes(c: Credential, p: CreateParams, o: Outcome)
    requires o.key.Some?
  {
    var (id, x, y) := o.key.value;
    && c.rpId == p.rpId && c.rpName == p.rpName
    && c.userId == p.user.id && c.userName == p.user.name && c.userDisplayName == p.user.displayName
    && c.credentialId == id && c.createdAt == o.createdAt
    && BigEndian.Value(c.publicKeyX) == x && (x < BigEndian.Pow256(32) ==> |c.publicKeyX| == 32)
    && BigEndian.Value(c.publicKeyY) == y && (y < BigEndian.Pow256(32) ==> |c.publicKeyY| == 32)
  }

  /** Where a save puts a credential: over the first one of the same relying party and user, or at the
      end. */
  lemma SavedPlace(creds: seq<Credential>, c: Credential) returns (i: nat)
    ensures i <= |creds| && Saved(creds, c) == (if i < |creds| then creds[i := c] else creds + [c])
    ensures forall j :: 0 <= j < i ==> creds[j].rpId != c.rpId || creds[j].userId != c.userId
    ensures i < |creds| ==> creds[i].rpId == c.rpId && creds[i].userId == c.userId
  {
    i := First(creds, KeyOf(c));
    forall j | 0 <= j < i
      ensures creds[j].rpId != c.rpId || creds[j].userId != c.userId
    {
      assert KeyOf(creds[j]) != KeyOf(c);
    }
  }

  // ---------------------------------------------------------------- assertion

  /** The credential works for the relying party. */
  predicate Works(env: Env, id: bytes, rpId: bytes) {
    env.signer.sign(id, env.crypto.sha256(rpId), env.crypto.sha256(Text("credential-check"))).Some?
  }

  /** `i` is the first usable entry of the allow list. */
  ghost predicate FirstAllowed(env: Env, p: GetParams, i: nat) {
    && i < |p.allowCredentials| && Works(env, p.allowCredentials[i], p.rpId)
    && forall j :: 0 <= j < i ==> !Works(env, p.allowCredentials[j], p.rpId)
  }

  /** `i` is the first usable stored credential of the relying party. */
  ghost predicate FirstStored(env: Env, creds: seq<Credential>, rpId: bytes, i: nat) {
    && i < |creds| && creds[i].rpId == rpId && Works(env, creds[i].credentialId, rpId)
    && forall j :: 0 <= j < i ==> creds[j].rpId != rpId || !Works(env, creds[j].credentialId, rpId)
  }

  /** A credential is there to use. */
  ghost predicate Usable(env: Env, s: State, p: GetParams) {
    if p.allowCredentials != [] then exists i: nat :: FirstAllowed(env, p, i)
    else s.store.Some? && exists i: nat :: FirstStored(env, s.store.value.creds, p.rpId, i)
  }

  lemma AllowedIsFirst(env: Env, s: State, p: GetParams)
    requires p.allowCredentials != []
    ensures FirstId(env, s, p).Some? <==> exists i: nat :: FirstAllowed(env, p, i)
    ensures forall i: nat :: FirstAllowed(env, p, i) ==> FirstId(env, s, p) == Some(p.allowCredentials[i])
  {
    var k := FirstSigning(env, p.allowCredentials, env.HashRPID(p.rpId), env.CheckDigest());
    if k < |p.allowCredentials| {
      assert FirstAllowed(env, p, k);
    }
    forall i: nat | FirstAllowed(env, p, i)
      ensures i == k
    {
      assert k < |p.allowCredentials| ==> Works(env, p.allowCredentials[k], p.rpId);
    }
  }

  lemma StoredIsHead(env: Env, creds: seq<Credential>, rpId: bytes, i: nat)
    requires FirstStored(env, creds, rpId, i)
    ensures var live := Live(env, ByRP(creds, rpId), env.HashRPID(rpId));
            live != [] && live[0] == creds[i]
  {
    var hash := env.HashRPID(rpId);
    var before, one, after := creds[..i], [creds[i]], creds[i + 1..];
    assert creds == before + (one + after);
    ByRPConcat(before, one + after, rpId);
    ByRPConcat(one, after, rpId);
    assert one[..0] == [];
    assert ByRP(one, rpId) == one;
    LiveConcat(env, ByRP(before, rpId), one + ByRP(after, rpId), hash);
    LiveStarts(env, one + ByRP(after, rpId), hash);
    ByRPMembers(before, rpId);
    forall j | 0 <= j < |ByRP(before, rpId)|
      ensures !Signs(env, ByRP(before, rpId)[j].credentialId, hash)
    {
      assert ByRP(before, rpId)[j] in before;
    }
    LiveNone(env, ByRP(before, rpId), hash);
  }

  lemma SomeStored(env: Env, creds: seq<Credential>, rpId: bytes)
    requires Live(env, ByRP(creds, rpId), env.HashRPID(rpId)) != []
    ensures exists i: nat :: FirstStored(env, creds, rpId, i)
  {
    var hash := env.HashRPID(rpId);
    var live := Live(env, ByRP(creds, rpId), hash);
    assert live[0] in live;
    Enumeration.LiveSigns(env, ByRP(creds, rpId), hash);
    ByRPMembers(creds, rpId);
    var k :| 0 <= k < |creds| && creds[k] == live[0];
    var i := EarliestStored(env, creds, rpId, k);
  }

  lemma {:induction false} EarliestStored(env: Env, creds: seq<Credential>, rpId: bytes, k: nat) returns (i: nat)
    requires k < |creds| && creds[k].rpId == rpId && Works(env, creds[k].credentialId, rpId)
    ensures FirstStored(env, creds, rpId, i)
  {
    if j :| 0 <= j < k && creds[j].rpId == rpId && Works(env, creds[j].credentialId, rpId) {
      i := EarliestStored(env, creds, rpId, j);
    } else {
      i := k;
    }
  }

  lemma {:induction false} EarliestAllowed(env: Env, p: GetParams, k: nat) returns (i: nat)
    requires k < |p.allowCredentials| && Works(env, p.allowCredentials[k], p.rpId)
    ensures FirstAllowed(env, p, i)
  {
    if j :| 0 <= j < k && Works(env, p.allowCredentials[j], p.rpId) {
      i := EarliestAllowed(env, p, j);
    } else {
      i := k;
    }
  }

  /** Nothing is there to use exactly when no entry of the list works, or, without a list, no stored
      credential of the relying party does. */
  lemma NothingUsableIff(env: Env, s: State, p: GetParams)
    ensures !Usable(env, s, p) <==>
            if p.allowCredentials != [] then forall id :: id in p.allowCredentials ==> !Works(env, id, p.rpId)
            else s.store.None? || forall c :: c in s.store.value.creds ==> !WorksFor(env, c, p.rpId)
  {
    if p.allowCredentials != [] {
      forall id | !Usable(env, s, p) && id in p.allowCredentials
        ensures !Works(env, id, p.rpId)
      {
        var k :| 0 <= k < |p.allowCredentials| && p.allowCredentials[k] == id;
        if Works(env, id, p.rpId) {
          var i := EarliestAllowed(env, p, k);
        }
      }
    } else if s.store.Some? {
      if i: nat :| FirstStored(env, s.store.value.creds, p.rpId, i) {
        assert WorksFor(env, s.store.value.creds[i], p.rpId);
      }
      forall c | !Usable(env, s, p) && c in s.store.value.creds
        ensures !WorksFor(env, c, p.rpId)
      {
        var k :| 0 <= k < |s.store.value.creds| && s.store.value.creds[k] == c;
        if WorksFor(env, c, p.rpId) {
          var i := EarliestStored(env, s.store.value.creds, p.rpId, k);
        }
      }
    }
  }

  predicate WorksFor(env: Env, c: Credential, rpId: bytes) {
    c.rpId == rpId && Works(env, c.credentialId, rpId)
  }

  /** Which credential a direct assertion is for: the first usable entry of its list, without a
      user, or the first usable stored credential of the relying party, with its user. */
  lemma DirectGetOutcome(env: Env, s: State, p: GetParams)
    requires env.Lawful() && env.signer.Steady()
    ensures var (t, r) := GetAssertionDirect(env, s, p);
            if |p.clientDataHash| != 32 then t == s && r == Err(ErrInvalidParameter)
            else if !Usable(env, s, p) then t == s && r == Err(ErrNoCredentials)
            else if p.allowCredentials != [] then
              forall i: nat :: FirstAllowed(env, p, i) ==> IsFor(env, s, p, r, p.allowCredentials[i], None)
            else
              forall i: nat :: FirstStored(env, s.store.value.creds, p.rpId, i) ==>
                var c := s.store.value.creds[i];
                IsFor(env, s, p, r, c.credentialId, Some(User(c.userId, c.userName, c.userDisplayName)))
    ensures var t := GetAssertionDirect(env, s, p).0; t == s.(ticks := t.ticks)
  {
    ChooseIsFirst(env, s, p);
    AsksIffUsable(env, s, p);
    if |p.clientDataHash| == 32 {
      if p.allowCredentials != [] {
        AllowedIsUsed(env, s, p);
      } else if s.store.Some? {
        StoredIsUsed(env, s, p);
      }
    }
    Enumeration.DirectFrame(env, s, p);
  }

  lemma AllowedIsUsed(env: Env, s: State, p: GetParams)
    requires env.Lawful() && env.signer.Steady() && |p.clientDataHash| == 32 && p.allowCredentials != []
    ensures forall i: nat :: FirstAllowed(env, p, i) ==>
              IsFor(env, s, p, GetAssertionDirect(env, s, p).1, p.allowCredentials[i], None)
  {
    AllowedIsFirst(env, s, p);
    ChooseIsFirst(env, s, p);
    forall i: nat | FirstAllowed(env, p, i)
      ensures IsFor(env, s, p, GetAssertionDirect(env, s, p).1, p.allowCredentials[i], None)
    {
      ChosenIsUsed(env, s, p, p.allowCredentials[i], None);
    }
  }

  lemma StoredIsUsed(env: Env, s: State, p: GetParams)
    requires env.Lawful() && env.signer.Steady() && |p.clientDataHash| == 32
    requires p.allowCredentials == [] && s.store.Some?
    ensures forall i: nat :: FirstStored(env, s.store.value.creds, p.rpId, i) ==>
              var c := s.store.value.creds[i];
              IsFor(env, s, p, GetAssertionDirect(env, s, p).1, c.credentialId,
                    Some(User(c.userId, c.userName, c.userDisplayName)))
  {
    var creds := s.store.value.creds;
    ChooseIsFirst(env, s, p);
    FirstIsHead(env, ByRP(creds, p.rpId), env.HashRPID(p.rpId));
    forall i: nat | FirstStored(env, creds, p.rpId, i)
      ensures IsFor(env, s, p, GetAssertionDirect(env, s, p).1, creds[i].credentialId,
                    Some(User(creds[i].userId, creds[i].userName, creds[i].userDisplayName)))
    {
      StoredIsHead(env, creds, p.rpId, i);
      ChosenIsUsed(env, s, p, creds[i].credentialId, Some(UserOf(creds[i])));
    }
  }

  /** The result is an assertion with this credential and user, or the extension's failure. */
  ghost predicate IsFor(env: Env, s: State, p: GetParams, r: Result<DirectAssertion, DirectError>, id: bytes,
                        user: Option<User>)
    requires env.Lawful()
  {
    && (r.Ok? <==> Extend(env, s.ecdhKey, id, p.hmacSecret).Ok?)
    && (r.Ok? ==> r.value.credentialId == id && r.value.user == user
                  && Ok(r.value.hmacOutput) == Extend(env, s.ecdhKey, id, p.hmacSecret))
    && (r.Err? ==> r.error.ErrHmac?)
  }

  lemma ChosenIsUsed(env: Env, s: State, p: GetParams, id: bytes, user: Option<User>)
    requires env.Lawful() && env.signer.Steady() && |p.clientDataHash| == 32
    requires Choose(env, s, p) == Some((id, user)) && Works(env, id, p.rpId)
    ensures IsFor(env, s, p, GetAssertionDirect(env, s, p).1, id, user)
  {}

  /** The command's statuses on the wire; an approved one answers for the credential that the direct
      command would use, with the number of usable stored credentials when there are several. */
  lemma GetAssertionOutcome(env: Env, s: State, req: AssertRequest, meanwhile: seq<P.Act>)
    requires env.Lawful() && env.signer.Steady()
    ensures var (t, r) := GetAssertion(env, s, req, meanwhile);
            var p := GetParams(req.clientDataHash, req.rpId, req.allowList, req.hmacSecret);
            var end := P.EndOf(s.presence, P.Pair(req.clientDataHash, env.crypto.sha256(req.rpId)), meanwhile);
            if |req.clientDataHash| != 32 then t == s.(assertion := None) && r == Status(0x02)
            else if !Usable(env, s, p) then t == s.(assertion := None) && r == Status(0x2e)
            else if !(end.Got? && end.v == P.Approved) then
              && t == s.(assertion := None, presence := t.presence)
              && r == Status(if end.Waiting? || end.Expired? then 0x2f else 0x27)
            else
              var d := GetAssertionDirect(env, s, p).1;
              if d.Err? then r == Status(0xe0)
              else
                && r.AssertionReply? && r.assertion.credentialId == d.value.credentialId
                && r.assertion.user == d.value.user && r.assertion.authData == d.value.authData
                && r.assertion.signature == d.value.signature
  {
    var p := GetParams(req.clientDataHash, req.rpId, req.allowList, req.hmacSecret);
    assert RequestOf(p) == req;
    AsksIffUsable(env, s, p);
    P.AwaitEnds(s.presence, PairOf(env, req.clientDataHash, req.rpId), meanwhile);
    UngrantedState(env, s, p, meanwhile);
    UngrantedReply(env, s, p, meanwhile);
    if Asks(env, s, p) && Consents(env, s, p.clientDataHash, p.rpId, meanwhile) {
      GrantedReply(env, s, p, meanwhile);
    }
  }

  lemma UngrantedReply(env: Env, s: State, p: GetParams, meanwhile: seq<P.Act>)
    requires env.Lawful()
    ensures var r := GetAssertion(env, s, RequestOf(p), meanwhile).1;
            && (|p.clientDataHash| != 32 ==> r == Status(0x02))
            && (|p.clientDataHash| == 32 && !Asks(env, s, p) ==> r == Status(0x2e))
            && (Asks(env, s, p) && !Consents(env, s, p.clientDataHash, p.rpId, meanwhile) ==>
                  var k := Ask(env, s, p.clientDataHash, p.rpId, meanwhile).1;
                  r == Status(if k.Expired? then 0x2f else 0x27))
  {
    ChooseIsFirst(env, s, p);
    DirectMirrorsCommand(env, s, p, meanwhile);
  }

  lemma GrantedReply(env: Env, s: State, p: GetParams, meanwhile: seq<P.Act>)
    requires env.Lawful() && env.signer.Steady()
    requires Asks(env, s, p) && Consents(env, s, p.clientDataHash, p.rpId, meanwhile)
    ensures var d := GetAssertionDirect(env, s, p).1;
            var r := GetAssertion(env, s, RequestOf(p), meanwhile).1;
            if d.Err? then r == Status(0xe0)
            else
              && r.AssertionReply? && r.assertion.credentialId == d.value.credentialId
              && r.assertion.user == d.value.user && r.assertion.authData == d.value.authData
              && r.assertion.signature == d.value.signature
  {
    AsksIffUsable(env, s, p);
    DirectMirrorsCommand(env, s, p, meanwhile);
    UsableFails(env, s, p);
    MirrorSays(GetAssertionDirect(env, s, p).1, NumberFor(env, s, p));
  }

  lemma MirrorSays(d: Result<DirectAssertion, DirectError>, number: nat)
    requires d.Err? ==> d.error.ErrHmac?
    ensures var r := Mirror(d, number);
            if d.Err? then r == Status(0xe0)
            else
              && r.AssertionReply? && r.assertion.credentialId == d.value.credentialId
              && r.assertion.user == d.value.user && r.assertion.authData == d.value.authData
              && r.assertion.signature == d.value.signature
  {}

  lemma AsksIffUsable(env: Env, s: State, p: GetParams)
    ensures Asks(env, s, p) <==> |p.clientDataHash| == 32 && Usable(env, s, p)
  {
    if p.allowCredentials != [] {
      AllowedIsFirst(env, s, p);
    } else if s.store.Some? {
      var creds := s.store.value.creds;
      FirstIsHead(env, ByRP(creds, p.rpId), env.HashRPID(p.rpId));
      if Discoverable(env, s, p.rpId) != [] {
        SomeStored(env, creds, p.rpId);
      }
      if i: nat :| FirstStored(env, creds, p.rpId, i) {
        StoredIsHead(env, creds, p.rpId, i);
      }
    }
  }

  lemma UngrantedState(env: Env, s: State, p: GetParams, meanwhile: seq<P.Act>)
    requires env.Lawful()
    ensures var t := GetAssertion(env, s, RequestOf(p), meanwhile).0;
            && (!Asks(env, s, p) ==> t == s.(assertion := None))
            && (!Consents(env, s, p.clientDataHash, p.rpId, meanwhile) ==>
                  t == s.(assertion := None, presence := t.presence))
  {
    if |p.allowCredentials| == 0 && s.store.Some? {
      FirstIsHead(env, ByRP(s.store.value.creds, p.rpId), env.HashRPID(p.rpId));
    }
  }

  lemma UsableFails(env: Env, s: State, p: GetParams)
    requires env.Lawful() && env.signer.Steady() && |p.clientDataHash| == 32 && Usable(env, s, p)
    ensures GetAssertionDirect(env, s, p).1.Err? ==> GetAssertionDirect(env, s, p).1.error.ErrHmac?
  {
    DirectGetOutcome(env, s, p);
    if p.allowCredentials != [] {
      var i: nat :| FirstAllowed(env, p, i);
    } else {
      var i: nat :| FirstStored(env, s.store.value.creds, p.rpId, i);
    }
  }

  /** With nothing active, the two steps of an approval get both commands through, and a denial is
      reported as one. */
  lemma CommandsGoThrough(env: Env, s: State, p: CreateParams, o: Outcome, req: AssertRequest, v: P.Verdict)
    requires env.Lawful() && env.signer.Steady() && s.presence.active.None?
    requires |p.clientDataHash| == 32 && !ExcludedOneSigns(env, p) && |req.clientDataHash| == 32
    requires Usable(env, s, GetParams(req.clientDataHash, req.rpId, req.allowList, req.hmacSecret))
    ensures var (t, r) := MakeCredential(env, s, p, true, P.Deciding(s.presence, v), o);
            if v == P.Approved then
              var (u, d) := MakeCredentialDirect(env, s.(presence := t.presence), p, o);
              t == u && r == if d.Ok? then Attestation(d.value) else Status(0x7f)
            else t == s.(presence := t.presence) && r == Status(0x27)
    ensures var r := GetAssertion(env, s, req, P.Deciding(s.presence, v)).1;
            if v == P.Approved then r.AssertionReply? || r == Status(0xe0) else r == Status(0x27)
  {
    P.VerdictArrives(s.presence, P.Pair(p.clientDataHash, env.crypto.sha256(p.rpId)), v);
    P.VerdictArrives(s.presence, P.Pair(req.clientDataHash, env.crypto.sha256(req.rpId)), v);
    MakeCredentialOutcome(env, s, p, true, P.Deciding(s.presence, v), o);
    GetAssertionOutcome(env, s, req, P.Deciding(s.presence, v));
  }

  /** GetNextAssertion without anything left to show, and with it. */
  lemma GetNextOutcome(env: Env, s: State)
    requires env.Lawful() && env.signer.Steady() && Enumeration.CursorSound(env, s)
    ensures var (t, r) := GetNextAssertion(env, s);
            if s.assertion.None? || s.assertion.value.currentIndex + 1 >= |s.assertion.value.credentials| then
              t == s.(assertion := None) && r == Status(0x30)
            else
              var a := s.assertion.value;
              var c := a.credentials[a.currentIndex + 1];
              if Extend(env, s.ecdhKey, c.credentialId, a.extensions).Err? then r == Status(0xe0)
              else
                && r.AssertionReply? && r.assertion.credentialId == c.credentialId
                && r.assertion.user == Some(User(c.userId, c.userName, c.userDisplayName))
  {
    if s.assertion.Some? && s.assertion.value.currentIndex + 1 < |s.assertion.value.credentials| {
      Enumeration.NextStep(env, s);
      var a := s.assertion.value.(currentIndex := s.assertion.value.currentIndex + 1);
      var c := a.credentials[a.currentIndex];
      assert c in a.credentials;
      Enumeration.BuildFor(env, s.(assertion := Some(a)), c, a.rpIdHash, a.clientDataHash, a.extensions, 0);
    }
  }

  /** A new resident credential is found again with its own user: when no earlier credential is of the
      same relying party, a discoverable assertion is for the new ID and the registered user. */
  lemma RegisteredUserIsFound(env: Env, s: State, p: CreateParams, o: Outcome, g: GetParams) returns (i: nat)
    requires History.Ideal(env) && History.GenuineKey(env, p.rpId, o) && s.store.Some?
    requires p.residentKey && o.key.Some? && |p.clientDataHash| == 32 && !ExcludedOneSigns(env, p)
    requires g.rpId == p.rpId && |g.clientDataHash| == 32 && g.allowCredentials == [] && g.hmacSecret.None?
    ensures i <= |s.store.value.creds|
    ensures i < |s.store.value.creds| ==>
              s.store.value.creds[i].rpId == p.rpId && s.store.value.creds[i].userId == p.user.id
    ensures var r := GetAssertionDirect(env, MakeCredentialDirect(env, s, p, o).0, g).1;
            (forall j :: 0 <= j < i ==> s.store.value.creds[j].rpId != p.rpId) ==>
              r.Ok? && r.value.credentialId == o.key.value.0 && r.value.user == Some(p.user)
  {
    i := RegistrationStoresUser(env, s, p, o);
    var t := MakeCredentialDirect(env, s, p, o).0;
    if forall j :: 0 <= j < i ==> s.store.value.creds[j].rpId != p.rpId {
      assert FirstStored(env, t.store.value.creds, p.rpId, i);
      DirectGetOutcome(env, t, g);
    }
  }

  // ---------------------------------------------------------------- key agreement

  /** The second sub-command publishes the point of the key that is kept, and only this one does. */
  lemma ClientPinOutcome(env: Env, s: State, sub: Option<nat>, freshKey: Option<nat>)
    requires env.Lawful()
    ensures var (t, r) := ClientPIN(env, s, sub, freshKey);
            if sub.None? then t == s && r == Status(0x12)
            else if sub != Some(2) then t == s && r == Status(0x35)
            else if s.ecdhKey.None? && freshKey.None? then t == s && r == Status(0x7f)
            else
              && t == s.(ecdhKey := if s.ecdhKey.Some? then s.ecdhKey else freshKey)
              && r.KeyAgreement? && |r.x| == |r.y| == 32
              && BigEndian.Value(r.x) == env.crypto.publicKey(t.ecdhKey.value).0
              && BigEndian.Value(r.y) == env.crypto.publicKey(t.ecdhKey.value).1
  {
    var key := if s.ecdhKey.Some? then s.ecdhKey else freshKey;
    if key.Some? {
      BigEndian.CoordinateIff(env.crypto.publicKey(key.value).0);
      BigEndian.CoordinateIff(env.crypto.publicKey(key.value).1);
    }
  }

  /** Edits made through the store report whether the file was written; deleting what is not there
      succeeds and changes nothing. */
  lemma StoreEditOutcome(env: Env, s: State, c: Credential, id: bytes, fault: Fault)
    requires env.Lawful()
    ensures var (t, r) := Step(env, s, SaveCredential(c, fault));
            r == StoreReply(s.store.Some? && fault == NoFault) && t == s.(store := t.store)
            && (s.store.Some? ==> t.store.Some? && c in t.store.value.creds)
    ensures var (t, r) := Step(env, s, DeleteCredential(id, fault));
            var there := s.store.Some? && exists c :: c in s.store.value.creds && c.credentialId == id;
            && r == StoreReply(s.store.Some? && (!there || fault == NoFault))
            && (!there ==> t == s) && t == s.(store := t.store)
            && (s.store.Some? ==> t.store.Some? && forall c :: c in t.store.value.creds ==> c.credentialId != id)
  {
    if s.store.Some? {
      SavedMembers(s.store.value.creds, c);
      WithoutAbsent(s.store.value.creds, id);
      WithoutMembers(s.store.value.creds, id);
    }
  }

  /** What is neither understood nor decoded, and what is answered from constants. */
  lemma UnreadCommands(env: Env, s: State, cmd: A.Command)
    requires env.Lawful()
    ensures cmd == CmdGetInfo ==> HandleCommand(env, s, cmd) == (s, Info)
    ensures cmd == CmdUnknown ==> HandleCommand(env, s, cmd) == (s, Status(0x01))
    ensures (cmd.CmdMakeCredential? && cmd.make.None?) || (cmd.CmdGetAssertion? && cmd.req.None?) ==>
              HandleCommand(env, s, cmd) == (s, Status(0x12))
  {}

  // ---------------------------------------------------------------- the extension end to end

  /** A platform that fetched the agreement key at some moment, and asks for an assertion after any
      events: it hashes the shared coordinate `b`, encrypts and authenticates its salts, and what it
      finds in the response's extension decrypts to the credential's PRF outputs for them. */
  lemma PlatformPrfOverCtap(env: Env, s: State, freshKey: Option<nat>, es: seq<Event>, p: nat, x: bytes, y: bytes,
                            b: bytes, salts: Blocks, req: AssertRequest, meanwhile: seq<P.Act>)
    requires env.Lawful() && (|salts| == 32 || |salts| == 64) && |b| == 32
    requires BigEndian.Value(x) == env.crypto.publicKey(p).0 && BigEndian.Value(y) == env.crypto.publicKey(p).1
    ensures var c := env.crypto;
            var (s1, published) := ClientPIN(env, s, Some(2), freshKey);
            var secret, iv := c.sha256(b), seq(16, _ => 0);
            var saltEnc := CbcEnc(c, secret, iv, salts);
            var r := GetAssertion(env, Run(env, s1, es), req, meanwhile).1;
            published.KeyAgreement? && r.AssertionReply?
            && BigEndian.Value(b) == c.sharedX(p, BigEndian.Value(published.x), BigEndian.Value(published.y))
            && req.hmacSecret == Some(HmacSecret.Input(2, 1, x, y, saltEnc, c.hmac(secret, saltEnc)[..16])) ==>
              && env.signer.credRandom(r.assertion.credentialId).Some?
              && |r.assertion.authData| == 37 + 15 + |salts|
              && CbcDec(c, secret, iv, r.assertion.authData[52..])
                 == HmacSecret.Outputs(c, env.signer.credRandom(r.assertion.credentialId).value, salts)
  {
    var c := env.crypto;
    var (s1, published) := ClientPIN(env, s, Some(2), freshKey);
    var u := Run(env, s1, es);
    var r := GetAssertion(env, u, req, meanwhile).1;
    var secret, iv := c.sha256(b), seq(16, _ => 0);
    var saltEnc := CbcEnc(c, secret, iv, salts);
    var input := HmacSecret.Input(2, 1, x, y, saltEnc, c.hmac(secret, saltEnc)[..16]);
    if published.KeyAgreement? && r.AssertionReply? && req.hmacSecret == Some(input)
       && BigEndian.Value(b) == c.sharedX(p, BigEndian.Value(published.x), BigEndian.Value(published.y)) {
      ClientPinOutcome(env, s, Some(2), freshKey);
      Enumeration.KeyStays(env, s1, es);
      AssertionsAreBound(env, u, req, meanwhile);
      OutputInData(env, s1.ecdhKey.value, p, x, y, b, salts, r.assertion, env.crypto.sha256(req.rpId),
                   req.clientDataHash, env.signer.counter(u.ticks));
    }
  }

  lemma OutputInData(env: Env, d: nat, p: nat, x: bytes, y: bytes, b: bytes, salts: Blocks, a: Assertion,
                     rpIdHash: bytes, clientDataHash: bytes, count: nat)
    requires env.Lawful() && (|salts| == 32 || |salts| == 64)
    requires |b| == 32
    requires BigEndian.Value(b) == env.crypto.sharedX(p, env.crypto.publicKey(d).0, env.crypto.publicKey(d).1)
    requires BigEndian.Value(x) == env.crypto.publicKey(p).0 && BigEndian.Value(y) == env.crypto.publicKey(p).1
    requires var c := env.crypto;
             var saltEnc := CbcEnc(c, c.sha256(b), seq(16, _ => 0), salts);
             Bound(env, a, rpIdHash, clientDataHash,
                   Some(HmacSecret.Input(2, 1, x, y, saltEnc, c.hmac(c.sha256(b), saltEnc)[..16])), Some(d), count)
    ensures env.signer.credRandom(a.credentialId).Some? && |a.authData| == 37 + 15 + |salts|
    ensures CbcDec(env.crypto, env.crypto.sha256(b), seq(16, _ => 0), a.authData[52..])
         == HmacSecret.Outputs(env.crypto, env.signer.credRandom(a.credentialId).value, salts)
  {
    var c := env.crypto;
    var saltEnc := CbcEnc(c, c.sha256(b), seq(16, _ => 0), salts);
    var input := HmacSecret.Input(2, 1, x, y, saltEnc, c.hmac(c.sha256(b), saltEnc)[..16]);
    var random := env.signer.credRandom(a.credentialId);
    HmacSecret.ProcessAnswersIff(c, Some(d), random, input);
    HmacSecret.PlatformObtainsPrf(c, d, p, x, y, b, random.value, salts);
    var out := HmacSecret.Process(c, Some(d), random, input).value;
    AuthData.ExtensionsOnTheWire(out);
    assert a.authData[52..] == a.authData[37..][15..];
  }
}
