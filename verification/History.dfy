/** Whole histories of one running authenticator with a well-behaved signer. */
module History {
  import opened Basics
  import opened Storage
  import opened StoreMap
  import opened A = Authenticator
  import opened Selection
  import Enumeration
  import P = Presence

  /** Signing success depends only on handle and application parameter. */
  ghost predicate Ideal(env: Env) {
    env.Lawful() && env.signer.Steady()
  }

  /** A new key signs for the relying party it was made for. */
  predicate GenuineKey(env: Env, rpId: bytes, o: Outcome) {
    o.key.Some? ==> Signs(env, o.key.value.0, env.HashRPID(rpId))
  }

  predicate Genuine(env: Env, e: Event) {
    match e
    case Command(CmdMakeCredential(Some((p, _)), _, o)) => GenuineKey(env, p.rpId, o)
    case CreateDirect(p, o) => GenuineKey(env, p.rpId, o)
    case SaveCredential(c, _) => Signs(env, c.credentialId, env.HashRPID(c.rpId))
    case _ => true
  }

  predicate AllGenuine(env: Env, es: seq<Event>) {
    forall i :: 0 <= i < |es| ==> Genuine(env, es[i])
  }

  /** The edit of the credential list that an event makes, if any. */
  function EditOf(env: Env, s: State, e: Event): Option<Edit>
    requires env.Lawful()
  {
    match e
    case Command(CmdMakeCredential(Some((p, es256)), meanwhile, o)) => AddedByCommand(env, s, p, es256, meanwhile, o)
    case CreateDirect(p, o) => Added(env, p, o)
    case SaveCredential(c, _) => Some(SaveOf(c))
    case DeleteCredential(id, _) => Some(DeleteOf(id))
    case _ => None
  }

  function NewCredential(p: CreateParams, o: Outcome): Credential
    requires o.key.Some?
  {
    CredentialFor(p, o.key.value.0, o.key.value.1, o.key.value.2, o.createdAt)
  }

  function Added(env: Env, p: CreateParams, o: Outcome): Option<Edit> {
    if |p.clientDataHash| == 32 && !Excluded(env, p) && p.residentKey && o.key.Some?
    then Some(SaveOf(NewCredential(p, o)))
    else None
  }

  function AddedByCommand(env: Env, s: State, p: CreateParams, es256: bool, meanwhile: seq<P.Act>, o: Outcome)
    : Option<Edit>
  {
    if es256 && Consents(env, s, p.clientDataHash, p.rpId, meanwhile) then Added(env, p, o) else None
  }

  function Apply(creds: seq<Credential>, e: Option<Edit>): seq<Credential> {
    if e.None? then creds else Edited(creds, e.value)
  }

  lemma RegisterEdits(env: Env, s: State, p: CreateParams, o: Outcome)
    requires env.Lawful() && s.store.Some?
    ensures var t := Register(env, s, p, o).0;
            t.store.Some?
            && (if p.residentKey && o.key.Some?
                then t.store.value.creds == Saved(s.store.value.creds, NewCredential(p, o))
                else t.store == s.store)
  {}

  lemma CreateEdits(env: Env, s: State, p: CreateParams, o: Outcome)
    requires env.Lawful() && s.store.Some?
    ensures var t := MakeCredentialDirect(env, s, p, o).0;
            t.store.Some? && t.store.value.creds == Apply(s.store.value.creds, Added(env, p, o))
            && (Added(env, p, o).None? ==> t.store == s.store)
  {
    RegisterEdits(env, s, p, o);
  }

  lemma MakeEdits(env: Env, s: State, p: CreateParams, es256: bool, meanwhile: seq<P.Act>, o: Outcome)
    requires env.Lawful() && s.store.Some?
    ensures var t := MakeCredential(env, s, p, es256, meanwhile, o).0;
            var e := AddedByCommand(env, s, p, es256, meanwhile, o);
            t.store.Some? && t.store.value.creds == Apply(s.store.value.creds, e)
            && (e.None? ==> t.store == s.store)
  {
    RegisterEdits(env, Ask(env, s, p.clientDataHash, p.rpId, meanwhile).0, p, o);
  }

  lemma CommandEdits(env: Env, s: State, cmd: Command)
    requires env.Lawful() && s.store.Some?
    ensures var t := HandleCommand(env, s, cmd).0;
            var e := EditOf(env, s, Event.Command(cmd));
            t.store.Some? && t.store.value.creds == Apply(s.store.value.creds, e)
            && (e.None? ==> t.store == s.store)
  {
    if cmd.CmdMakeCredential? {
      if cmd.make.Some? {
        MakeEdits(env, s, cmd.make.value.0, cmd.make.value.1, cmd.meanwhile, cmd.outcome);
      }
    } else {
      Enumeration.QuietCommandFrame(env, s, cmd);
    }
  }

  /** Every event changes the credential list by its edit and by nothing else. */
  lemma StepEdits(env: Env, s: State, e: Event)
    requires env.Lawful() && s.store.Some?
    ensures var t := Step(env, s, e).0;
            t.store.Some? && t.store.value.creds == Apply(s.store.value.creds, EditOf(env, s, e))
            && (EditOf(env, s, e).None? ==> t.store == s.store)
  {
    match e
    case Command(cmd) => CommandEdits(env, s, cmd);
    case CreateDirect(p, o) => CreateEdits(env, s, p, o);
    case DeleteCredential(id, _) => WithoutAbsent(s.store.value.creds, id);
    case _ =>
  }

  // ---------------------------------------------------------------- stored credentials sign

  ghost predicate AllSign(env: Env, creds: seq<Credential>) {
    forall c :: c in creds ==> Signs(env, c.credentialId, env.HashRPID(c.rpId))
  }

  lemma StepKeepsSigning(env: Env, s: State, e: Event)
    requires env.Lawful() && s.store.Some? && AllSign(env, s.store.value.creds) && Genuine(env, e)
    ensures var t := Step(env, s, e).0; t.store.Some? && AllSign(env, t.store.value.creds)
  {
    StepEdits(env, s, e);
    match EditOf(env, s, e)
    case None =>
    case Some(SaveOf(c)) => SavedMembers(s.store.value.creds, c);
    case Some(DeleteOf(id)) => WithoutMembers(s.store.value.creds, id);
  }

  /** From an empty store, every credential ever stored signs for its own relying party. */
  lemma {:induction false} StoredCredentialsSign(env: Env, s: State, es: seq<Event>)
    requires env.Lawful() && s.store.Some? && AllSign(env, s.store.value.creds) && AllGenuine(env, es)
    ensures var t := Run(env, s, es); t.store.Some? && AllSign(env, t.store.value.creds)
    decreases |es|
  {
    if es != [] {
      assert Genuine(env, es[0]);
      StepKeepsSigning(env, s, es[0]);
      StoredCredentialsSign(env, Step(env, s, es[0]).0, es[1..]);
    }
  }

  // ---------------------------------------------------------------- survival

  /** The event neither overwrites the credential's (relying party, user) nor deletes its ID. */
  predicate Spares(env: Env, s: State, e: Event, c: Credential)
    requires env.Lawful()
  {
    match EditOf(env, s, e)
    case None => true
    case Some(SaveOf(d)) => KeyOf(d) != KeyOf(c)
    case Some(DeleteOf(id)) => id != c.credentialId
  }

  predicate AllSpare(env: Env, s: State, es: seq<Event>, c: Credential)
    requires env.Lawful()
    decreases |es|
  {
    es == [] || (Spares(env, s, es[0], c) && AllSpare(env, Step(env, s, es[0]).0, es[1..], c))
  }

  lemma {:induction false} Survives(env: Env, s: State, es: seq<Event>, c: Credential)
    requires env.Lawful() && s.store.Some? && c in s.store.value.creds && AllSpare(env, s, es, c)
    ensures var t := Run(env, s, es); t.store.Some? && c in t.store.value.creds
    decreases |es|
  {
    if es != [] {
      StepEdits(env, s, es[0]);
      match EditOf(env, s, es[0]) {
        case None =>
        case Some(SaveOf(d)) => SavedMembers(s.store.value.creds, d);
        case Some(DeleteOf(id)) => WithoutMembers(s.store.value.creds, id);
      }
      Survives(env, Step(env, s, es[0]).0, es[1..], c);
    }
  }

  /** A discoverable lookup succeeds whenever the store holds a credential of the relying party,
      and returns the earliest one. */
  lemma LookupFindsEarliest(env: Env, s: State, p: GetParams)
    requires Ideal(env) && s.store.Some? && AllSign(env, s.store.value.creds)
    requires |p.clientDataHash| == 32 && p.allowCredentials == [] && p.hmacSecret.None?
    ensures var held := ByRP(s.store.value.creds, p.rpId);
            var r := GetAssertionDirect(env, s, p).1;
            if held == [] then r == Err(ErrNoCredentials)
            else r.Ok? && r.value.credentialId == held[0].credentialId && r.value.user == Some(UserOf(held[0]))
  {
    var creds := s.store.value.creds;
    var held := ByRP(creds, p.rpId);
    ByRPMembers(creds, p.rpId);
    DirectIsHeadOfFindIff(env, s, p);
    if held != [] {
      assert held[0] in held;
      LiveStarts(env, held, env.HashRPID(p.rpId));
    }
  }

  /** An ID that signs for the relying party blocks registration by either route: nothing changes,
      and the user is not even asked. */
  lemma ExclusionBlocks(env: Env, s: State, p: CreateParams, es256: bool, meanwhile: seq<P.Act>, o: Outcome, id: bytes)
    requires Ideal(env) && |p.clientDataHash| == 32
    requires id in p.excludeList && Signs(env, id, env.HashRPID(p.rpId))
    ensures MakeCredentialDirect(env, s, p, o) == (s, Err(ErrExcluded))
    ensures es256 ==> MakeCredential(env, s, p, es256, meanwhile, o) == (s, Status(CREDENTIAL_EXCLUDED))
  {
    var i :| 0 <= i < |p.excludeList| && p.excludeList[i] == id;
    assert env.signer.sign(id, env.HashRPID(p.rpId), env.ExcludeDigest()).Some?;
  }

  /** A credential in use: it is stored, a discoverable lookup for its relying party succeeds with
      the earliest stored credential there, and registering again with its ID excluded is refused by
      either route and changes nothing. */
  ghost predicate Lives(env: Env, t: State, c: Credential)
    requires env.Lawful()
  {
    && t.store.Some? && c in t.store.value.creds && ByRP(t.store.value.creds, c.rpId) != []
    && (forall g: GetParams ::
          g.rpId == c.rpId && |g.clientDataHash| == 32 && g.allowCredentials == [] && g.hmacSecret.None? ==>
            var r := GetAssertionDirect(env, t, g).1;
            r.Ok? && r.value.credentialId == ByRP(t.store.value.creds, c.rpId)[0].credentialId)
    && (forall p: CreateParams, o: Outcome ::
          p.rpId == c.rpId && |p.clientDataHash| == 32 && c.credentialId in p.excludeList ==>
            MakeCredentialDirect(env, t, p, o) == (t, Err(ErrExcluded)))
    && (forall p: CreateParams, meanwhile: seq<P.Act>, o: Outcome ::
          p.rpId == c.rpId && |p.clientDataHash| == 32 && c.credentialId in p.excludeList ==>
            MakeCredential(env, t, p, true, meanwhile, o) == (t, Status(CREDENTIAL_EXCLUDED)))
  }

  lemma StoredLives(env: Env, t: State, c: Credential)
    requires Ideal(env) && t.store.Some? && AllSign(env, t.store.value.creds) && c in t.store.value.creds
    ensures Lives(env, t, c)
  {
    ByRPMembers(t.store.value.creds, c.rpId);
    forall g: GetParams | g.rpId == c.rpId && |g.clientDataHash| == 32 && g.allowCredentials == [] && g.hmacSecret.None?
      ensures var r := GetAssertionDirect(env, t, g).1;
              r.Ok? && r.value.credentialId == ByRP(t.store.value.creds, c.rpId)[0].credentialId
    {
      LookupFindsEarliest(env, t, g);
    }
    forall p: CreateParams, meanwhile: seq<P.Act>, o: Outcome |
      p.rpId == c.rpId && |p.clientDataHash| == 32 && c.credentialId in p.excludeList
      ensures MakeCredentialDirect(env, t, p, o) == (t, Err(ErrExcluded))
      ensures MakeCredential(env, t, p, true, meanwhile, o) == (t, Status(CREDENTIAL_EXCLUDED))
    {
      ExclusionBlocks(env, t, p, true, meanwhile, o, c.credentialId);
    }
  }

  /** The event is a resident registration, by either route, that reported success. */
  ghost predicate Registers(env: Env, s: State, e: Event, p: CreateParams, o: Outcome)
    requires env.Lawful()
  {
    && p.residentKey && o.key.Some?
    && match e
       case CreateDirect(q, u) => q == p && u == o && MakeCredentialDirect(env, s, p, o).1.Ok?
       case Command(CmdMakeCredential(Some((q, es256)), meanwhile, u)) =>
         q == p && u == o && MakeCredential(env, s, p, es256, meanwhile, o).1.Attestation?
       case _ => false
  }

  lemma RegistrationStores(env: Env, s: State, e: Event, p: CreateParams, o: Outcome)
    requires env.Lawful() && s.store.Some? && AllSign(env, s.store.value.creds)
    requires Registers(env, s, e, p, o) && GenuineKey(env, p.rpId, o)
    ensures Genuine(env, e) && EditOf(env, s, e) == Some(SaveOf(NewCredential(p, o)))
    ensures var t := Step(env, s, e).0;
            t.store.Some? && AllSign(env, t.store.value.creds) && NewCredential(p, o) in t.store.value.creds
  {
    StepEdits(env, s, e);
    SavedMembers(s.store.value.creds, NewCredential(p, o));
    StepKeepsSigning(env, s, e);
  }

  /** After a resident registration by either route, through any later events that do not overwrite
      or delete it, the credential stays in use. */
  lemma RegisteredCredentialLives(env: Env, s: State, e: Event, p: CreateParams, o: Outcome, es: seq<Event>)
    requires Ideal(env) && s.store.Some? && AllSign(env, s.store.value.creds)
    requires Registers(env, s, e, p, o) && GenuineKey(env, p.rpId, o)
    requires AllGenuine(env, es) && AllSpare(env, Step(env, s, e).0, es, NewCredential(p, o))
    ensures Lives(env, Run(env, Step(env, s, e).0, es), NewCredential(p, o))
  {
    var t := Step(env, s, e).0;
    RegistrationStores(env, s, e, p, o);
    Survives(env, t, es, NewCredential(p, o));
    StoredCredentialsSign(env, t, es);
    StoredLives(env, Run(env, t, es), NewCredential(p, o));
  }

  // ---------------------------------------------------------------- approval

  /** Without the user's consent a registration makes no key, stores nothing and reads no counter. */
  lemma RegistrationNeedsConsent(env: Env, s: State, p: CreateParams, es256: bool, meanwhile: seq<P.Act>, o: Outcome)
    requires env.Lawful()
    ensures var (t, r) := MakeCredential(env, s, p, es256, meanwhile, o);
            t != s.(presence := t.presence) || r.Attestation? ==>
              && Consents(env, s, p.clientDataHash, p.rpId, meanwhile)
              && t.presence == Ask(env, s, p.clientDataHash, p.rpId, meanwhile).0.presence
  {
    Enumeration.RegisterFrame(env, Ask(env, s, p.clientDataHash, p.rpId, meanwhile).0, p, o);
  }

  /** Without it an assertion only drops the previous snapshot. */
  lemma AssertionNeedsConsent(env: Env, s: State, req: AssertRequest, meanwhile: seq<P.Act>)
    requires env.Lawful()
    ensures var (t, r) := GetAssertion(env, s, req, meanwhile);
            t != s.(presence := t.presence, assertion := None) || r.AssertionReply? ==>
              && Consents(env, s, req.clientDataHash, req.rpId, meanwhile)
              && t.presence == Ask(env, s, req.clientDataHash, req.rpId, meanwhile).0.presence
  {}

  /** The presence steps of an event: those of its own wait, or those of everyone else. */
  function PresenceSteps(env: Env, s: State, e: Event): seq<P.Act>
    requires env.Lawful()
  {
    match e
    case Meanwhile(acts) => acts
    case Command(CmdMakeCredential(Some((p, es256)), meanwhile, o)) =>
      if MakeCredential(env, s, p, es256, meanwhile, o).0.presence == s.presence then []
      else P.StepsOfWait(s.presence, PairOf(env, p.clientDataHash, p.rpId), meanwhile)
    case Command(CmdGetAssertion(Some(req), meanwhile)) =>
      if GetAssertion(env, s, req, meanwhile).0.presence == s.presence then []
      else P.StepsOfWait(s.presence, PairOf(env, req.clientDataHash, req.rpId), meanwhile)
    case _ => []
  }

  /** Events move the presence protocol by its own steps and in no other way. */
  lemma StepFollowsProtocol(env: Env, s: State, e: Event)
    requires env.Lawful()
    ensures Step(env, s, e).0.presence == P.Run(s.presence, PresenceSteps(env, s, e))
  {
    match e
    case Command(CmdMakeCredential(Some((p, es256)), meanwhile, o)) =>
      P.AwaitIsRun(s.presence, PairOf(env, p.clientDataHash, p.rpId), meanwhile);
      Enumeration.RegisterFrame(env, Ask(env, s, p.clientDataHash, p.rpId, meanwhile).0, p, o);
    case Command(CmdGetAssertion(Some(req), meanwhile)) =>
      P.AwaitIsRun(s.presence, PairOf(env, req.clientDataHash, req.rpId), meanwhile);
      AssertionPresence(env, s, req, meanwhile);
    case CreateDirect(p, o) => Enumeration.RegisterFrame(env, s, p, o);
    case _ =>
  }

  lemma AssertionPresence(env: Env, s: State, req: AssertRequest, meanwhile: seq<P.Act>)
    requires env.Lawful()
    ensures var t := GetAssertion(env, s, req, meanwhile).0;
            t.presence == s.presence || t.presence == Ask(env, s, req.clientDataHash, req.rpId, meanwhile).0.presence
  {}

  function ProtocolOf(env: Env, s: State, es: seq<Event>): seq<P.Act>
    requires env.Lawful()
    decreases |es|
  {
    if es == [] then [] else PresenceSteps(env, s, es[0]) + ProtocolOf(env, Step(env, s, es[0]).0, es[1..])
  }

  /** A whole history is one run of the presence protocol, to which all its theorems apply. */
  lemma {:induction false} HistoryFollowsProtocol(env: Env, s: State, es: seq<Event>)
    requires env.Lawful()
    ensures Run(env, s, es).presence == P.Run(s.presence, ProtocolOf(env, s, es))
    decreases |es|
  {
    if es != [] {
      var t := Step(env, s, es[0]).0;
      StepFollowsProtocol(env, s, es[0]);
      HistoryFollowsProtocol(env, t, es[1..]);
      P.RunSplits(s.presence, PresenceSteps(env, s, es[0]), ProtocolOf(env, t, es[1..]));
    }
  }

  /** The caller that an event which asks the user becomes. */
  function CallerIn(s: State): nat { |s.presence.callers| }

  lemma {:induction false} RunSplits(env: Env, s: State, a: seq<Event>, b: seq<Event>)
    requires env.Lawful()
    ensures Run(env, s, a + b) == Run(env, Run(env, s, a), b)
    decreases |a|
  {
    if a == [] {
      assert a + b == b;
    } else {
      assert (a + b)[1..] == a[1..] + b;
      RunSplits(env, Step(env, s, a[0]).0, a[1..], b);
    }
  }

  lemma LastStep(env: Env, s: State, es: seq<Event>)
    requires env.Lawful() && es != []
    ensures Run(env, s, es) == Step(env, Run(env, s, es[..|es| - 1]), es[|es| - 1]).0
  {
    var m := |es| - 1;
    var u := Run(env, s, es[..m]);
    assert es == es[..m] + [es[m]] && [es[m]][1..] == [];
    RunSplits(env, s, es[..m], [es[m]]);
    assert Run(env, u, [es[m]]) == Run(env, Step(env, u, es[m]).0, []);
  }

  /** At any moment of any history, a wait that is granted was granted by the user's approval of its
      own pair, and no other caller is released by that prompt, however the history goes on. */
  lemma GrantedInHistory(env: Env, s: State, es: seq<Event>, clientDataHash: bytes, rpId: bytes,
                         meanwhile: seq<P.Act>, t: State, later: seq<Event>)
    requires env.Lawful() && s.presence == P.INITIAL
    requires Consents(env, Run(env, s, es), clientDataHash, rpId, meanwhile)
    requires t.presence == Ask(env, Run(env, s, es), clientDataHash, rpId, meanwhile).0.presence
    ensures P.ReleasedBy(Run(env, t, later).presence, CallerIn(Run(env, s, es)), PairOf(env, clientDataHash, rpId))
  {
    HistoryFollowsProtocol(env, s, es);
    P.RunKeepsInv(P.INITIAL, ProtocolOf(env, s, es));
    HistoryFollowsProtocol(env, t, later);
    var pair := PairOf(env, clientDataHash, rpId);
    P.GrantedIsReleased(Run(env, s, es).presence, pair, meanwhile, ProtocolOf(env, t, later));
  }

  /** At any moment of any history: a registration that changes anything or returns a credential was
      released by a prompt for exactly its own client data and relying party, which the user approved
      and which released no one else, then or ever after. */
  lemma RegistrationNeedsOwnApproval(env: Env, s: State, es: seq<Event>, p: CreateParams, es256: bool,
                                     meanwhile: seq<P.Act>, o: Outcome, later: seq<Event>)
    requires env.Lawful() && s.presence == P.INITIAL
    ensures var u := Run(env, s, es);
            var (t, r) := MakeCredential(env, u, p, es256, meanwhile, o);
            t != u.(presence := t.presence) || r.Attestation? ==>
              P.ReleasedBy(Run(env, t, later).presence, CallerIn(u), PairOf(env, p.clientDataHash, p.rpId))
  {
    var u := Run(env, s, es);
    var (t, r) := MakeCredential(env, u, p, es256, meanwhile, o);
    RegistrationNeedsConsent(env, u, p, es256, meanwhile, o);
    if t != u.(presence := t.presence) || r.Attestation? {
      GrantedInHistory(env, s, es, p.clientDataHash, p.rpId, meanwhile, t, later);
    }
  }

  /** The same for an assertion that reads the counter, leaves a snapshot or returns a response. */
  lemma AssertionNeedsOwnApproval(env: Env, s: State, es: seq<Event>, req: AssertRequest, meanwhile: seq<P.Act>,
                                  later: seq<Event>)
    requires env.Lawful() && s.presence == P.INITIAL
    ensures var u := Run(env, s, es);
            var (t, r) := GetAssertion(env, u, req, meanwhile);
            t != u.(presence := t.presence, assertion := None) || r.AssertionReply? ==>
              P.ReleasedBy(Run(env, t, later).presence, CallerIn(u), PairOf(env, req.clientDataHash, req.rpId))
  {
    var u := Run(env, s, es);
    var (t, r) := GetAssertion(env, u, req, meanwhile);
    AssertionNeedsConsent(env, u, req, meanwhile);
    if t != u.(presence := t.presence, assertion := None) || r.AssertionReply? {
      GrantedInHistory(env, s, es, req.clientDataHash, req.rpId, meanwhile, t, later);
    }
  }

  // ---------------------------------------------------------------- follow-ups

  /** `es[i]` is the assertion that took the snapshot of which `a` is a stage. */
  ghost predicate TookSnapshot(env: Env, s: State, es: seq<Event>, i: nat, a: AssertionState)
    requires env.Lawful()
  {
    && i < |es| && Enumeration.StartsAssertion(es[i]) && Enumeration.NoneStarts(es[i + 1..])
    && var req, u := es[i].cmd.req.value, Run(env, s, es[..i]);
       && |req.clientDataHash| == 32 && req.allowList == []
       && Consents(env, u, req.clientDataHash, req.rpId, es[i].cmd.meanwhile)
       && Snapshot(env, u, req) == Some(a.(currentIndex := 0))
  }

  lemma NewSnapshot(env: Env, s: State, req: AssertRequest, meanwhile: seq<P.Act>)
    requires env.Lawful() && GetAssertion(env, s, req, meanwhile).0.assertion.Some?
    ensures GetAssertion(env, s, req, meanwhile).0.assertion == Snapshot(env, s, req)
    ensures |req.clientDataHash| == 32 && req.allowList == []
    ensures Consents(env, s, req.clientDataHash, req.rpId, meanwhile)
  {}

  /** Every snapshot in force was taken by the last assertion command of the history. */
  lemma {:induction false} SnapshotOrigin(env: Env, s: State, es: seq<Event>) returns (i: nat)
    requires env.Lawful() && s.assertion.None? && Run(env, s, es).assertion.Some?
    ensures TookSnapshot(env, s, es, i, Run(env, s, es).assertion.value)
    decreases |es|
  {
    var m := |es| - 1;
    var front, e := es[..m], es[m];
    var u := Run(env, s, front);
    LastStep(env, s, es);
    if Enumeration.StartsAssertion(e) {
      i := m;
      NewSnapshot(env, u, e.cmd.req.value, e.cmd.meanwhile);
    } else {
      StepKeepsSnapshot(env, u, e);
      i := SnapshotOrigin(env, s, front);
      OriginStays(env, s, es, i, u.assertion.value, Run(env, s, es).assertion.value);
    }
  }

  lemma OriginStays(env: Env, s: State, es: seq<Event>, i: nat, a: AssertionState, b: AssertionState)
    requires env.Lawful() && es != [] && !Enumeration.StartsAssertion(es[|es| - 1])
    requires TookSnapshot(env, s, es[..|es| - 1], i, a) && b.(currentIndex := 0) == a.(currentIndex := 0)
    ensures TookSnapshot(env, s, es, i, b)
  {
    var front := es[..|es| - 1];
    assert es[..i] == front[..i] && es[i] == front[i];
    assert es[i + 1..] == front[i + 1..] + [es[|es| - 1]];
  }

  lemma StepKeepsSnapshot(env: Env, s: State, e: Event)
    requires env.Lawful() && !Enumeration.StartsAssertion(e) && Step(env, s, e).0.assertion.Some?
    ensures s.assertion.Some?
    ensures Step(env, s, e).0.assertion.value.(currentIndex := 0) == s.assertion.value.(currentIndex := 0)
  {
    if Enumeration.AsksNext(e) {
      NextKeepsSnapshot(env, s);
    } else {
      Enumeration.OtherFrame(env, s, e);
    }
  }

  lemma NextKeepsSnapshot(env: Env, s: State)
    requires env.Lawful() && GetNextAssertion(env, s).0.assertion.Some?
    ensures s.assertion.Some?
    ensures GetNextAssertion(env, s).0.assertion.value.(currentIndex := 0) == s.assertion.value.(currentIndex := 0)
  {}

  /** A follow-up asks nobody, yet at any moment of any history it is covered: it is bound to the
      relying party and client data of the last assertion command, which the user approved by a
      prompt for exactly these that released no one else, and it names a credential that was then
      stored for that relying party. */
  lemma FollowUpsAreApproved(env: Env, s: State, es: seq<Event>) returns (i: nat)
    requires env.Lawful() && s.presence == P.INITIAL && s.assertion.None?
    ensures GetNextAssertion(env, Run(env, s, es)).1.AssertionReply? ==>
              i < |es| && Covers(env, s, es, i, GetNextAssertion(env, Run(env, s, es)).1.assertion)
  {
    var t := Run(env, s, es);
    i := 0;
    if GetNextAssertion(env, t).1.AssertionReply? {
      i := SnapshotOrigin(env, s, es);
      FollowUpIsBound(env, t);
      SnapshotIsStored(env, Run(env, s, es[..i]), es[i].cmd.req.value, t.assertion.value);
      SnapshotIsApproved(env, s, es, i, t.assertion.value);
    }
  }

  /** `es[i]` is the last assertion command; `a` is bound to what it asked for, which the user
      approved for it alone, and names a credential stored at that moment. */
  ghost predicate Covers(env: Env, s: State, es: seq<Event>, i: nat, a: Assertion)
    requires env.Lawful() && i < |es|
  {
    && Enumeration.StartsAssertion(es[i]) && Enumeration.NoneStarts(es[i + 1..])
    && var req, u := es[i].cmd.req.value, Run(env, s, es[..i]);
       && Bound(env, a, env.crypto.sha256(req.rpId), req.clientDataHash, req.hmacSecret, Run(env, s, es).ecdhKey,
                env.signer.counter(Run(env, s, es).ticks))
       && IsFrom(u, req.rpId, a)
       && P.ReleasedBy(Run(env, s, es).presence, CallerIn(u), PairOf(env, req.clientDataHash, req.rpId))
  }

  lemma SnapshotIsStored(env: Env, s: State, req: AssertRequest, a: AssertionState)
    requires Snapshot(env, s, req) == Some(a.(currentIndex := 0))
    ensures forall j :: 0 <= j < |a.credentials| ==> HeldFor(s, req.rpId, a.credentials[j])
  {
    LiveHeld(env, s, req.rpId);
  }

  lemma SnapshotIsApproved(env: Env, s: State, es: seq<Event>, i: nat, a: AssertionState)
    requires env.Lawful() && s.presence == P.INITIAL && TookSnapshot(env, s, es, i, a)
    ensures var req, u := es[i].cmd.req.value, Run(env, s, es[..i]);
            P.ReleasedBy(Run(env, s, es).presence, CallerIn(u), PairOf(env, req.clientDataHash, req.rpId))
  {
    var req, meanwhile, u := es[i].cmd.req.value, es[i].cmd.meanwhile, Run(env, s, es[..i]);
    assert es == es[..i] + es[i..] && es[i..][1..] == es[i + 1..];
    RunSplits(env, s, es[..i], es[i..]);
    SnapshotTaken(env, u, req, meanwhile);
    AssertionNeedsOwnApproval(env, s, es[..i], req, meanwhile, es[i + 1..]);
  }

  lemma SnapshotTaken(env: Env, s: State, req: AssertRequest, meanwhile: seq<P.Act>)
    requires env.Lawful() && |req.clientDataHash| == 32 && req.allowList == []
    requires Consents(env, s, req.clientDataHash, req.rpId, meanwhile) && Snapshot(env, s, req).Some?
    ensures GetAssertion(env, s, req, meanwhile).0.assertion.Some?
  {}
}
