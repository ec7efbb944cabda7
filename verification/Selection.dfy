/** The three credential searches agree, and what a response is bound to. */
module Selection {
  import opened Basics
  import opened Storage
  import opened AuthData
  import opened A = Authenticator
  import BigEndian
  import HmacSecret
  import P = Presence

  // ---------------------------------------------------------------- first match and filter

  lemma {:induction false} LiveConcat(env: Env, a: seq<Credential>, b: seq<Credential>, hash: bytes)
    ensures Live(env, a + b, hash) == Live(env, a, hash) + Live(env, b, hash)
  {
    if b == [] {
      assert a + b == a;
    } else {
      assert (a + b)[..|a + b| - 1] == a + b[..|b| - 1];
      LiveConcat(env, a, b[..|b| - 1], hash);
    }
  }

  lemma {:induction false} LiveNone(env: Env, creds: seq<Credential>, hash: bytes)
    requires forall i :: 0 <= i < |creds| ==> !Signs(env, creds[i].credentialId, hash)
    ensures Live(env, creds, hash) == []
  {
    if creds != [] {
      LiveNone(env, creds[..|creds| - 1], hash);
    }
  }

  lemma LiveSkips(env: Env, creds: seq<Credential>, i: nat, hash: bytes)
    requires i <= |creds| && forall j :: 0 <= j < i ==> !Signs(env, creds[j].credentialId, hash)
    ensures Live(env, creds, hash) == Live(env, creds[i..], hash)
  {
    LiveNone(env, creds[..i], hash);
    LiveConcat(env, creds[..i], creds[i..], hash);
    assert creds[..i] + creds[i..] == creds;
  }

  lemma LiveStarts(env: Env, creds: seq<Credential>, hash: bytes)
    requires creds != [] && Signs(env, creds[0].credentialId, hash)
    ensures Live(env, creds, hash) != [] && Live(env, creds, hash)[0] == creds[0]
  {
    var one := [creds[0]];
    assert one[..0] == [];
    assert Live(env, one, hash) == one;
    LiveConcat(env, one, creds[1..], hash);
    assert one + creds[1..] == creds;
  }

  /** The early exit finds the head of the full filter. */
  lemma FirstIsHead(env: Env, creds: seq<Credential>, hash: bytes)
    ensures var i := FirstSigning(env, Ids(creds), hash, env.CheckDigest());
            var live := Live(env, creds, hash);
            if i == |creds| then live == [] else live != [] && live[0] == creds[i]
  {
    var i := FirstSigning(env, Ids(creds), hash, env.CheckDigest());
    forall j | 0 <= j < i
      ensures !Signs(env, creds[j].credentialId, hash)
    {
      assert env.signer.sign(Ids(creds)[j], hash, env.CheckDigest()).None?;
    }
    LiveSkips(env, creds, i, hash);
    if i < |creds| {
      assert Signs(env, creds[i].credentialId, hash);
      LiveStarts(env, creds[i..], hash);
    }
  }

  // ---------------------------------------------------------------- the two commands

  /** The reply of the CTAP2 command that corresponds to a direct result. */
  function Mirror(r: Result<DirectAssertion, DirectError>, number: nat): Reply {
    match r
    case Ok(a) => AssertionReply(Assertion(a.credentialId, a.authData, a.signature, a.user, number))
    case Err(ErrInvalidParameter) => Status(INVALID_PARAMETER)
    case Err(ErrHmac(_)) => Status(EXTENSION_FIRST)
    case Err(ErrSign) => Status(OTHER)
    case Err(_) => Status(NO_CREDENTIALS)
  }

  /** The ID that the search settles on: a caller can look at it in the list it sends, or in the
      stored credentials. */
  function FirstId(env: Env, s: State, p: GetParams): Option<bytes> {
    var hash := env.HashRPID(p.rpId);
    var ids := if |p.allowCredentials| > 0 then p.allowCredentials
               else if s.store.None? then []
               else Ids(ByRP(s.store.value.creds, p.rpId));
    var i := FirstSigning(env, ids, hash, env.CheckDigest());
    if i < |ids| then Some(ids[i]) else None
  }

  function UserFor(env: Env, s: State, p: GetParams): Option<User> {
    var live := Discoverable(env, s, p.rpId);
    if |p.allowCredentials| > 0 || live == [] then None else Some(UserOf(live[0]))
  }

  function NumberFor(env: Env, s: State, p: GetParams): nat {
    if |p.allowCredentials| > 0 then 0
    else
      var n := |Discoverable(env, s, p.rpId)|;
      if n > 1 then n else 0
  }

  lemma ChooseIsFirst(env: Env, s: State, p: GetParams)
    ensures Choose(env, s, p).Some? <==> FirstId(env, s, p).Some?
    ensures Choose(env, s, p).Some? ==>
              var (id, user) := Choose(env, s, p).value;
              FirstId(env, s, p) == Some(id) && user == UserFor(env, s, p) &&
              if |p.allowCredentials| > 0 then user == None && id in p.allowCredentials
              else var live := Discoverable(env, s, p.rpId);
                   live != [] && id == live[0].credentialId && user == Some(UserOf(live[0]))
  {
    if |p.allowCredentials| == 0 && s.store.Some? {
      var creds := ByRP(s.store.value.creds, p.rpId);
      FirstIsHead(env, creds, env.HashRPID(p.rpId));
    }
  }

  function RequestOf(p: GetParams): AssertRequest {
    AssertRequest(p.rpId, p.clientDataHash, p.allowCredentials, p.hmacSecret)
  }

  /** What the resident or allow-list path builds once the user consents. */
  lemma GetAssertionBuilds(env: Env, s: State, p: GetParams, meanwhile: seq<P.Act>)
    requires env.Lawful() && |p.clientDataHash| == 32 && FirstId(env, s, p).Some?
    requires Consents(env, s, p.clientDataHash, p.rpId, meanwhile)
    ensures GetAssertion(env, s, RequestOf(p), meanwhile).1
         == Build(env, s, FirstId(env, s, p).value, UserFor(env, s, p), env.HashRPID(p.rpId), p.clientDataHash,
                  p.hmacSecret, NumberFor(env, s, p)).1
  {
    var hash := env.HashRPID(p.rpId);
    var asked := Ask(env, s.(assertion := None), p.clientDataHash, p.rpId, meanwhile).0;
    var id, user, n := FirstId(env, s, p).value, UserFor(env, s, p), NumberFor(env, s, p);
    if |p.allowCredentials| == 0 {
      FirstIsHead(env, ByRP(s.store.value.creds, p.rpId), hash);
      asked := asked.(assertion := Snapshot(env, s, RequestOf(p)));
    }
    BuildIgnoresRest(env, s, asked, id, user, hash, p.clientDataHash, p.hmacSecret, n);
  }

  lemma BuildIgnoresRest(env: Env, s: State, t: State, id: bytes, user: Option<User>, hash: bytes, cdh: bytes,
                         ext: Option<HmacSecret.Input>, number: nat)
    requires env.Lawful() && t.ecdhKey == s.ecdhKey && t.ticks == s.ticks
    ensures Build(env, s, id, user, hash, cdh, ext, number).1 == Build(env, t, id, user, hash, cdh, ext, number).1
  {}

  lemma DirectIsBuild(env: Env, s: State, p: GetParams, id: bytes, user: Option<User>, number: nat)
    requires env.Lawful() && |p.clientDataHash| == 32 && Choose(env, s, p) == Some((id, user))
    ensures Mirror(GetAssertionDirect(env, s, p).1, number)
         == Build(env, s, id, user, env.HashRPID(p.rpId), p.clientDataHash, p.hmacSecret, number).1
  {}

  /** Whether the command gets as far as asking the user. */
  predicate Asks(env: Env, s: State, p: GetParams) {
    |p.clientDataHash| == 32 && FirstId(env, s, p).Some?
  }

  /** On every store and every list, the direct search gives the command's first response, byte for
      byte (credential, user, data, signature and failures alike), and the command differs only
      when it asks the user and is not granted. */
  lemma DirectMirrorsCommand(env: Env, s: State, p: GetParams, meanwhile: seq<P.Act>)
    requires env.Lawful()
    ensures GetAssertion(env, s, RequestOf(p), meanwhile).1
         == if Asks(env, s, p) && !Consents(env, s, p.clientDataHash, p.rpId, meanwhile)
            then Status(PresenceFailure(Ask(env, s, p.clientDataHash, p.rpId, meanwhile).1))
            else Mirror(GetAssertionDirect(env, s, p).1, NumberFor(env, s, p))
  {
    ChooseIsFirst(env, s, p);
    if |p.allowCredentials| == 0 && s.store.Some? {
      FirstIsHead(env, ByRP(s.store.value.creds, p.rpId), env.HashRPID(p.rpId));
    }
    if Asks(env, s, p) && Consents(env, s, p.clientDataHash, p.rpId, meanwhile) {
      GetAssertionBuilds(env, s, p, meanwhile);
      DirectIsBuild(env, s, p, FirstId(env, s, p).value, UserFor(env, s, p), NumberFor(env, s, p));
    }
  }

  /** On the discoverable path the direct command succeeds exactly when `FindCredentials` finds
      something and the extension, if asked for, can be answered for the head of what it finds; and
      then it is for that head. */
  lemma DirectIsHeadOfFindIff(env: Env, s: State, p: GetParams)
    requires env.Lawful() && env.signer.Steady() && |p.clientDataHash| == 32 && p.allowCredentials == []
    ensures var r := GetAssertionDirect(env, s, p).1;
            var found := Discoverable(env, s, p.rpId);
            && (r.Ok? <==> found != [] && Extend(env, s.ecdhKey, found[0].credentialId, p.hmacSecret).Ok?)
            && (r.Ok? ==> r.value.credentialId == found[0].credentialId && r.value.user == Some(UserOf(found[0])))
  {
    ChooseIsFirst(env, s, p);
    var hash := env.HashRPID(p.rpId);
    if s.store.Some? {
      var creds := ByRP(s.store.value.creds, p.rpId);
      FirstIsHead(env, creds, hash);
      var i := FirstSigning(env, Ids(creds), hash, env.CheckDigest());
      if i < |creds| {
        assert env.signer.sign(Ids(creds)[i], hash, env.CheckDigest()).Some?;
        assert forall d :: env.signer.sign(creds[i].credentialId, hash, d).Some?;
      }
    }
  }

  // ---------------------------------------------------------------- what a response is bound to

  /** Byte for byte what a reply is: its data is the hash of the relying party, the flag byte, the
      counter reading and, when asked for, the extension's output under the agreement key `key`; its
      signature covers that data and the client data; and the data reads back. */
  ghost predicate Bound(env: Env, a: Assertion, rpIdHash: bytes, clientDataHash: bytes,
                        asked: Option<HmacSecret.Input>, key: Option<nat>, count: nat)
    requires env.Lawful()
  {
    && env.signer.sign(a.credentialId, rpIdHash, env.crypto.sha256(a.authData + clientDataHash)) == Some(a.signature)
    && |a.authData| >= 37 && a.authData[..32] == rpIdHash
    && a.authData[32] == (if asked.Some? then 0x85 else 0x05)
    && BigEndian.Value(a.authData[33..37]) == count
    && (asked.None? ==> a.authData[37..] == [])
    && (asked.Some? ==>
          var out := HmacSecret.Process(env.crypto, key, env.signer.credRandom(a.credentialId), asked.value);
          out.Ok? && a.authData[37..] == GetExtension(out.value))
    && Read(a.authData).Some? && Read(a.authData).value.extensions == a.authData[37..]
  }

  lemma BuildIsBound(env: Env, s: State, id: bytes, user: Option<User>, hash: bytes, cdh: bytes,
                     ext: Option<HmacSecret.Input>, number: nat)
    requires env.Lawful() && |hash| == 32
    ensures var r := Build(env, s, id, user, hash, cdh, ext, number).1;
            r.AssertionReply? ==>
              && r.assertion.credentialId == id && r.assertion.user == user && r.assertion.number == number
              && Bound(env, r.assertion, hash, cdh, ext, s.ecdhKey, env.signer.counter(s.ticks))
  {
    var output := Extend(env, s.ecdhKey, id, ext);
    if output.Ok? {
      DataIsBound(hash, output.value, env.signer.counter(s.ticks));
    }
  }

  lemma DataIsBound(hash: bytes, output: Option<bytes>, count: nat)
    requires |hash| == 32 && count < BigEndian.Pow256(4) && (output.Some? ==> |output.value| < 256)
    ensures var ext := if output.Some? then GetExtension(output.value) else [];
            var b := Layout(AssertionData(hash, ext, count));
            && |b| >= 37 && b[..32] == hash && b[32] == (if output.Some? then 0x85 else 0x05)
            && BigEndian.Value(b[33..37]) == count && b[37..] == ext
            && Read(b).Some? && Read(b).value.extensions == ext
  {
    var ext := if output.Some? then GetExtension(output.value) else [];
    var head := hash + [if output.Some? then 0x85 else 0x05] + BigEndian.Fixed(count, 4);
    AssertionDataReads(hash, output, count);
    AssertionDataOnTheWire(hash, output, count);
    BigEndian.FixedValueIff(count, 4);
    assert (head + ext)[33..37] == BigEndian.Fixed(count, 4);
  }

  predicate HeldFor(s: State, rpId: bytes, c: Credential) {
    s.store.Some? && c in s.store.value.creds && c.rpId == rpId
  }

  /** Every assertion the command returns is bound to its own relying party and client data, which
      the user consented to, and an allow list is honoured. */
  lemma AssertionsAreBound(env: Env, s: State, req: AssertRequest, meanwhile: seq<P.Act>)
    requires env.Lawful()
    ensures var r := GetAssertion(env, s, req, meanwhile).1;
            r.AssertionReply? ==>
              && Consents(env, s, req.clientDataHash, req.rpId, meanwhile)
              && Bound(env, r.assertion, env.crypto.sha256(req.rpId), req.clientDataHash, req.hmacSecret, s.ecdhKey,
                       env.signer.counter(s.ticks))
              && (req.allowList != [] ==> r.assertion.credentialId in req.allowList && r.assertion.user == None)
              && (req.allowList == [] ==> IsFrom(s, req.rpId, r.assertion))
  {
    var hash := env.HashRPID(req.rpId);
    var r := GetAssertion(env, s, req, meanwhile).1;
    if r.AssertionReply? {
      var asked := Ask(env, s.(assertion := None), req.clientDataHash, req.rpId, meanwhile).0;
      if req.allowList != [] {
        var i := FirstSigning(env, req.allowList, hash, env.CheckDigest());
        BuildIsBound(env, asked, req.allowList[i], None, hash, req.clientDataHash, req.hmacSecret, 0);
      } else {
        var live := Discoverable(env, s, req.rpId);
        LiveHeld(env, s, req.rpId);
        assert HeldFor(s, req.rpId, live[0]);
        BuildIsBound(env, asked.(assertion := Snapshot(env, s, req)), live[0].credentialId, Some(UserOf(live[0])), hash,
                     req.clientDataHash, req.hmacSecret, if |live| > 1 then |live| else 0);
      }
    }
  }

  /** The assertion names a credential stored for the relying party, and its user. */
  ghost predicate IsFrom(s: State, rpId: bytes, a: Assertion) {
    exists c :: HeldFor(s, rpId, c) && c.credentialId == a.credentialId
      && a.user == Some(User(c.userId, c.userName, c.userDisplayName))
  }

  lemma LiveHeld(env: Env, s: State, rpId: bytes)
    ensures forall i :: 0 <= i < |Discoverable(env, s, rpId)| ==> HeldFor(s, rpId, Discoverable(env, s, rpId)[i])
  {
    if s.store.Some? {
      LiveMembers(env, ByRP(s.store.value.creds, rpId), env.HashRPID(rpId));
      ByRPMembers(s.store.value.creds, rpId);
    }
  }

  /** A follow-up is bound to what the snapshot was taken for. */
  lemma FollowUpIsBound(env: Env, s: State)
    requires env.Lawful() && s.assertion.Some? && |s.assertion.value.rpIdHash| == 32
    ensures var a := s.assertion.value;
            var r := GetNextAssertion(env, s).1;
            r.AssertionReply? ==>
              && a.currentIndex + 1 < |a.credentials|
              && Bound(env, r.assertion, a.rpIdHash, a.clientDataHash, a.extensions, s.ecdhKey,
                       env.signer.counter(s.ticks))
              && r.assertion.credentialId == a.credentials[a.currentIndex + 1].credentialId
              && r.assertion.user == Some(UserOf(a.credentials[a.currentIndex + 1]))
  {
    var a := s.assertion.value.(currentIndex := s.assertion.value.currentIndex + 1);
    if a.currentIndex < |a.credentials| {
      var c := a.credentials[a.currentIndex];
      BuildIsBound(env, s.(assertion := Some(a)), c.credentialId, Some(UserOf(c)), a.rpIdHash, a.clientDataHash,
                   a.extensions, 0);
    }
  }

  lemma {:induction false} LiveMembers(env: Env, creds: seq<Credential>, hash: bytes)
    ensures forall c :: c in Live(env, creds, hash) ==> c in creds
  {
    if creds != [] {
      LiveMembers(env, creds[..|creds| - 1], hash);
    }
  }

  /** The direct command's result, as the assertion it is. */
  lemma DirectIsBound(env: Env, s: State, p: GetParams)
    requires env.Lawful()
    ensures var r := GetAssertionDirect(env, s, p).1;
            r.Ok? ==> Bound(env, Assertion(r.value.credentialId, r.value.authData, r.value.signature, r.value.user, 0),
                            env.crypto.sha256(p.rpId), p.clientDataHash, p.hmacSecret, s.ecdhKey,
                            env.signer.counter(s.ticks))
  {
    var chosen := Choose(env, s, p);
    if |p.clientDataHash| == 32 && chosen.Some? {
      var (id, user) := chosen.value;
      BuildIsBound(env, s, id, user, env.HashRPID(p.rpId), p.clientDataHash, p.hmacSecret, 0);
      DirectIsBuild(env, s, p, id, user, 0);
    }
  }

  /** Byte for byte what a registration is: its data, and the attestation over it. */
  ghost predicate Certified(env: Env, p: CreateParams, c: Created, count: nat)
    requires env.Lawful()
  {
    && env.attest(env.crypto.sha256(c.authData + p.clientDataHash)) == Some(c.signature)
    && c.authData
       == env.crypto.sha256(p.rpId) + [if p.hmacSecret then 0xc5 else 0x45] + BigEndian.Fixed(count, 4)
          + (env.crypto.sha256(Text("tpm-fido-prf"))[..16] + BigEndian.Fixed(|c.credentialId|, 2) + c.credentialId
             + CoseKey(c.x, c.y))
          + (if p.hmacSecret then CreateExtension() else [])
  }

  /** A registration's attestation covers exactly its data, which reads back with the new ID and
      the new key, for IDs that fit the two-byte length. */
  lemma RegistrationsAreBound(env: Env, s: State, p: CreateParams, o: Outcome)
    requires env.Lawful()
    ensures var r := MakeCredentialDirect(env, s, p, o).1;
            r.Ok? ==>
              && o.key == Some((r.value.credentialId, r.value.x, r.value.y))
              && Certified(env, p, r.value, env.signer.counter(s.ticks))
              && (|r.value.credentialId| < 65536 ==>
                    && Read(r.value.authData).Some?
                    && var ad := Read(r.value.authData).value;
                       && ad.rpIdHash == env.crypto.sha256(p.rpId) && ad.attested.Some?
                       && ad.attested.value.credentialId == r.value.credentialId
                       && ad.attested.value.publicKey == CoseKey(r.value.x, r.value.y)
                       && (ad.extensions != [] <==> p.hmacSecret))
  {
    if o.key.Some? {
      var (id, x, y) := o.key.value;
      ExtensionsAreItems([]);
      CreateDataReads(env.HashRPID(p.rpId), env.Aaguid(), id, x, y, p.hmacSecret, env.signer.counter(s.ticks));
      CreateDataOnTheWire(env.HashRPID(p.rpId), env.Aaguid(), id, x, y, p.hmacSecret, env.signer.counter(s.ticks));
    }
  }
}
