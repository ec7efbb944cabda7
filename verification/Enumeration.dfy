/** GetAssertion followed by GetNextAssertion, in any company: what a client is shown. */
module Enumeration {
  import opened Basics
  import opened Storage
  import opened A = Authenticator
  import HmacSecret
  import P = Presence

  /** Commands that replace the snapshot being enumerated. */
  predicate StartsAssertion(e: Event) {
    e.Command? && e.cmd.CmdGetAssertion? && e.cmd.req.Some?
  }

  predicate NoneStarts(es: seq<Event>) {
    forall i :: 0 <= i < |es| ==> !StartsAssertion(es[i])
  }

  predicate AsksNext(e: Event) { e.Command? && e.cmd.CmdGetNextAssertion? }

  /** A follow-up's reply, with the agreement key that the authenticator held when it was asked. */
  datatype Seen = Seen(reply: Reply, key: Option<nat>)

  /** What the GetNextAssertion commands of a run are shown, in order. */
  function Shown(env: Env, s: State, es: seq<Event>): seq<Seen>
    requires env.Lawful()
    decreases |es|
  {
    if es == [] then []
    else
      var (s', r) := Step(env, s, es[0]);
      (if AsksNext(es[0]) then [Seen(r, s.ecdhKey)] else []) + Shown(env, s', es[1..])
  }

  // ---------------------------------------------------------------- the cursor

  /** Between commands the cursor is inside a snapshot of at least two credentials, all of which
      sign for the relying party of the snapshot. */
  ghost predicate CursorSound(env: Env, s: State) {
    s.assertion.Some? ==>
      var a := s.assertion.value;
      && a.currentIndex < |a.credentials| && |a.credentials| >= 2
      && |a.rpIdHash| == 32
      && forall c :: c in a.credentials ==> Signs(env, c.credentialId, a.rpIdHash)
  }

  lemma {:induction false} LiveSigns(env: Env, creds: seq<Credential>, rpIdHash: bytes)
    ensures forall c :: c in Live(env, creds, rpIdHash) <==> c in creds && Signs(env, c.credentialId, rpIdHash)
  {
    if creds != [] {
      LiveSigns(env, creds[..|creds| - 1], rpIdHash);
      assert creds == creds[..|creds| - 1] + [creds[|creds| - 1]];
    }
  }

  lemma BuildFrame(env: Env, s: State, id: bytes, user: Option<User>, hash: bytes, cdh: bytes,
                   ext: Option<HmacSecret.Input>, number: nat)
    requires env.Lawful()
    ensures var s' := Build(env, s, id, user, hash, cdh, ext, number).0; s' == s.(ticks := s'.ticks)
  {}

  lemma GetAssertionCursor(env: Env, s: State, req: AssertRequest, meanwhile: seq<P.Act>)
    requires env.Lawful()
    ensures var s' := GetAssertion(env, s, req, meanwhile).0;
            CursorSound(env, s') && s'.ecdhKey == s.ecdhKey && s'.store == s.store
  {
    var hash := env.HashRPID(req.rpId);
    var live := Discoverable(env, s, req.rpId);
    if s.store.Some? {
      LiveSigns(env, ByRP(s.store.value.creds, req.rpId), hash);
    }
    if |req.allowList| > 0 {
      var s1 := Ask(env, s.(assertion := None), req.clientDataHash, req.rpId, meanwhile).0;
      var i := FirstSigning(env, req.allowList, hash, env.CheckDigest());
      if i < |req.allowList| {
        BuildFrame(env, s1, req.allowList[i], None, hash, req.clientDataHash, req.hmacSecret, 0);
      }
    } else if live != [] {
      var s1 := Ask(env, s, req.clientDataHash, req.rpId, meanwhile).0.(assertion := Snapshot(env, s, req));
      assert CursorSound(env, s1);
      BuildFrame(env, s1, live[0].credentialId, Some(UserOf(live[0])), hash, req.clientDataHash, req.hmacSecret,
                 if |live| > 1 then |live| else 0);
    }
  }

  lemma NextFrame(env: Env, s: State)
    requires env.Lawful()
    ensures var s' := GetNextAssertion(env, s).0; s'.ecdhKey == s.ecdhKey && s'.store == s.store
    ensures CursorSound(env, s) ==> CursorSound(env, GetNextAssertion(env, s).0)
  {
    if s.assertion.Some? {
      var a := s.assertion.value.(currentIndex := s.assertion.value.currentIndex + 1);
      if a.currentIndex < |a.credentials| {
        var c := a.credentials[a.currentIndex];
        BuildFrame(env, s.(assertion := Some(a)), c.credentialId, Some(UserOf(c)), a.rpIdHash, a.clientDataHash,
                   a.extensions, 0);
      }
    }
  }

  lemma OtherFrame(env: Env, s: State, e: Event)
    requires env.Lawful() && !StartsAssertion(e) && !AsksNext(e)
    ensures var s' := Step(env, s, e).0;
            s'.assertion == s.assertion && (s.ecdhKey.Some? ==> s'.ecdhKey == s.ecdhKey)
  {
    match e
    case Command(CmdMakeCredential(Some((p, es256)), meanwhile, o)) => MakeFrame(env, s, p, es256, meanwhile, o);
    case Command(CmdClientPIN(sub, freshKey)) => PinFrame(env, s, sub, freshKey);
    case CreateDirect(p, o) => RegisterFrame(env, s, p, o);
    case GetDirect(g) => DirectFrame(env, s, g);
    case _ =>
  }

  lemma PinFrame(env: Env, s: State, sub: Option<nat>, freshKey: Option<nat>)
    ensures var t := ClientPIN(env, s, sub, freshKey).0;
            t == s.(ecdhKey := t.ecdhKey) && (s.ecdhKey.Some? ==> t.ecdhKey == s.ecdhKey)
  {}

  lemma DirectFrame(env: Env, s: State, g: GetParams)
    requires env.Lawful()
    ensures var t := GetAssertionDirect(env, s, g).0; t == s.(ticks := t.ticks)
  {}

  lemma RegisterFrame(env: Env, s: State, p: CreateParams, o: Outcome)
    requires env.Lawful()
    ensures var t := Register(env, s, p, o).0;
            t.assertion == s.assertion && t.ecdhKey == s.ecdhKey && t.presence == s.presence
  {}

  lemma MakeFrame(env: Env, s: State, p: CreateParams, es256: bool, meanwhile: seq<P.Act>, o: Outcome)
    requires env.Lawful()
    ensures var t := MakeCredential(env, s, p, es256, meanwhile, o).0;
            t.assertion == s.assertion && t.ecdhKey == s.ecdhKey
  {
    RegisterFrame(env, Ask(env, s, p.clientDataHash, p.rpId, meanwhile).0, p, o);
  }

  /** Commands other than registration leave the store as it is. */
  lemma QuietCommandFrame(env: Env, s: State, cmd: A.Command)
    requires env.Lawful() && !cmd.CmdMakeCredential?
    ensures HandleCommand(env, s, cmd).0.store == s.store
  {
    match cmd
    case CmdGetAssertion(Some(req), meanwhile) => GetAssertionCursor(env, s, req, meanwhile);
    case CmdGetNextAssertion => NextFrame(env, s);
    case _ =>
  }

  lemma StepKeepsCursor(env: Env, s: State, e: Event)
    requires env.Lawful() && CursorSound(env, s)
    ensures CursorSound(env, Step(env, s, e).0)
  {
    if StartsAssertion(e) {
      GetAssertionCursor(env, s, e.cmd.req.value, e.cmd.meanwhile);
    } else if AsksNext(e) {
      NextFrame(env, s);
    } else {
      OtherFrame(env, s, e);
    }
  }

  lemma StepKeepsKey(env: Env, s: State, e: Event)
    requires env.Lawful() && s.ecdhKey.Some?
    ensures Step(env, s, e).0.ecdhKey == s.ecdhKey
  {
    if StartsAssertion(e) {
      GetAssertionCursor(env, s, e.cmd.req.value, e.cmd.meanwhile);
    } else if AsksNext(e) {
      NextFrame(env, s);
    } else {
      OtherFrame(env, s, e);
    }
  }

  lemma {:induction false} RunKeepsCursor(env: Env, s: State, es: seq<Event>)
    requires env.Lawful() && CursorSound(env, s)
    ensures CursorSound(env, Run(env, s, es))
    decreases |es|
  {
    if es != [] {
      StepKeepsCursor(env, s, es[0]);
      RunKeepsCursor(env, Step(env, s, es[0]).0, es[1..]);
    }
  }

  // ---------------------------------------------------------------- one response

  /** `r` is the response, or the failed attempt at a response, for credential `c`. */
  predicate ReplyFor(r: Reply, c: Credential, number: nat) {
    r == Status(EXTENSION_FIRST) || r == Status(OTHER)
    || (r.AssertionReply? && r.assertion.credentialId == c.credentialId
        && r.assertion.user == Some(UserOf(c)) && r.assertion.number == number)
  }

  /** Whether the extension request, if any, can be answered for `c`. */
  ghost predicate Answerable(env: Env, key: Option<nat>, c: Credential, ext: Option<HmacSecret.Input>)
    requires env.Lawful()
  {
    Extend(env, key, c.credentialId, ext).Ok?
  }

  lemma BuildFor(env: Env, s: State, c: Credential, rpIdHash: bytes, cdh: bytes, ext: Option<HmacSecret.Input>,
                 number: nat)
    requires env.Lawful()
    ensures var (s', r) := Build(env, s, c.credentialId, Some(UserOf(c)), rpIdHash, cdh, ext, number);
            && ReplyFor(r, c, number)
            && s' == s.(ticks := s'.ticks)
            && (env.signer.Steady() && Signs(env, c.credentialId, rpIdHash) ==>
                  (r.AssertionReply? <==> Answerable(env, s.ecdhKey, c, ext)))
  {}

  // ---------------------------------------------------------------- the enumeration

  /** What the j-th follow-up must be shown, for a snapshot whose cursor stands at `a.currentIndex`. */
  ghost predicate FollowUp(env: Env, a: AssertionState, j: nat, v: Seen)
    requires env.Lawful()
  {
    var i := a.currentIndex + 1 + j;
    if i < |a.credentials| then
      && ReplyFor(v.reply, a.credentials[i], 0)
      && (v.reply.AssertionReply? <==> Answerable(env, v.key, a.credentials[i], a.extensions))
    else v.reply == Status(NOT_ALLOWED)
  }

  lemma {:induction false} NothingToEnumerate(env: Env, s: State, es: seq<Event>)
    requires env.Lawful() && s.assertion.None? && NoneStarts(es)
    ensures Run(env, s, es).assertion.None?
    ensures forall j :: 0 <= j < |Shown(env, s, es)| ==> Shown(env, s, es)[j].reply == Status(NOT_ALLOWED)
    decreases |es|
  {
    if es != [] {
      assert !StartsAssertion(es[0]);
      if !AsksNext(es[0]) {
        OtherFrame(env, s, es[0]);
      }
      NothingToEnumerate(env, Step(env, s, es[0]).0, es[1..]);
    }
  }

  /** The agreement key, once made, is the key of every later follow-up. */
  lemma {:induction false} KeyStays(env: Env, s: State, es: seq<Event>)
    requires env.Lawful() && s.ecdhKey.Some?
    ensures Run(env, s, es).ecdhKey == s.ecdhKey
    ensures forall j :: 0 <= j < |Shown(env, s, es)| ==> Shown(env, s, es)[j].key == s.ecdhKey
    decreases |es|
  {
    if es != [] {
      StepKeepsKey(env, s, es[0]);
      KeyStays(env, Step(env, s, es[0]).0, es[1..]);
    }
  }

  /** One GetNextAssertion: the cursor moves even when the response fails, and the number of
      credentials left goes down by one until the snapshot is dropped. */
  lemma NextStep(env: Env, s: State)
    requires env.Lawful() && env.signer.Steady() && CursorSound(env, s) && s.assertion.Some?
    ensures var a := s.assertion.value;
            var (s', r) := GetNextAssertion(env, s);
            && FollowUp(env, a, 0, Seen(r, s.ecdhKey))
            && s'.assertion == if a.currentIndex + 1 < |a.credentials|
                               then Some(a.(currentIndex := a.currentIndex + 1)) else None
  {
    var a := s.assertion.value.(currentIndex := s.assertion.value.currentIndex + 1);
    if a.currentIndex < |a.credentials| {
      var c := a.credentials[a.currentIndex];
      assert c in a.credentials;
      BuildFor(env, s.(assertion := Some(a)), c, a.rpIdHash, a.clientDataHash, a.extensions, 0);
    }
  }

  /** What a run of follow-ups and other commands must show from a given snapshot and cursor. */
  ghost predicate InOrder(env: Env, a: AssertionState, v: seq<Seen>, end: Option<AssertionState>)
    requires env.Lawful()
  {
    && (forall j: nat :: j < |v| ==> FollowUp(env, a, j, v[j]))
    && end == if a.currentIndex + |v| < |a.credentials| then Some(a.(currentIndex := a.currentIndex + |v|)) else None
  }

  lemma InOrderAfterNext(env: Env, a: AssertionState, r: Seen, w: seq<Seen>, end: Option<AssertionState>)
    requires env.Lawful() && FollowUp(env, a, 0, r)
    requires var b := a.(currentIndex := a.currentIndex + 1);
             if b.currentIndex < |a.credentials| then InOrder(env, b, w, end)
             else end == None && forall j :: 0 <= j < |w| ==> w[j].reply == Status(NOT_ALLOWED)
    ensures InOrder(env, a, [r] + w, end)
  {
    var b := a.(currentIndex := a.currentIndex + 1);
    forall j: nat | j < |[r] + w|
      ensures FollowUp(env, a, j, ([r] + w)[j])
    {
      if j > 0 && b.currentIndex < |a.credentials| {
        assert FollowUp(env, b, j - 1, w[j - 1]);
      }
    }
  }

  /** However other commands interleave, and whether or not each response builds, follow-ups move
      through the snapshot in order, one credential each; after the last the reply is NotAllowed
      and the snapshot is gone. The number of follow-ups alone determines the cursor, and each
      response builds exactly when its extension can be answered with the key of that moment. */
  lemma {:induction false} FollowUpsInOrder(env: Env, s: State, es: seq<Event>)
    requires env.Lawful() && env.signer.Steady() && CursorSound(env, s) && s.assertion.Some? && NoneStarts(es)
    ensures InOrder(env, s.assertion.value, Shown(env, s, es), Run(env, s, es).assertion)
    decreases |es|
  {
    var a := s.assertion.value;
    if es == [] {
      assert a.(currentIndex := a.currentIndex + 0) == a;
    } else {
      var e, rest := es[0], es[1..];
      assert !StartsAssertion(e);
      var (s', r) := Step(env, s, e);
      var w := Shown(env, s', rest);
      StepKeepsCursor(env, s, e);
      if AsksNext(e) {
        NextStep(env, s);
        if s'.assertion.Some? {
          FollowUpsInOrder(env, s', rest);
        } else {
          NothingToEnumerate(env, s', rest);
        }
        InOrderAfterNext(env, a, Seen(r, s.ecdhKey), w, Run(env, s', rest).assertion);
      } else {
        OtherFrame(env, s, e);
        FollowUpsInOrder(env, s', rest);
        assert [] + w == w;
      }
    }
  }

  /** A resident GetAssertion over n live credentials, once the user consents, shows the first of
      them and, when there are more, announces n; the follow-ups of any run then show the rest in
      order, as they were at the first command, whatever has been saved or deleted since, and the
      n-th follow-up is refused. */
  lemma ResidentEnumeration(env: Env, s: State, req: AssertRequest, meanwhile: seq<P.Act>, es: seq<Event>)
    requires env.Lawful() && env.signer.Steady() && NoneStarts(es)
    requires |req.clientDataHash| == 32 && req.allowList == []
    ensures var live := Discoverable(env, s, req.rpId);
            var n := |live|;
            var (s1, first) := GetAssertion(env, s, req, meanwhile);
            var v := Shown(env, s1, es);
            if n == 0 || !Consents(env, s, req.clientDataHash, req.rpId, meanwhile) then
              && first == Status(if n == 0 then NO_CREDENTIALS
                                 else PresenceFailure(Ask(env, s, req.clientDataHash, req.rpId, meanwhile).1))
              && s1.assertion == None && forall j :: 0 <= j < |v| ==> v[j].reply == Status(NOT_ALLOWED)
            else
              && ReplyFor(first, live[0], if n > 1 then n else 0)
              && (first.AssertionReply? <==> Answerable(env, s.ecdhKey, live[0], req.hmacSecret))
              && (forall j: nat :: j < |v| ==> FollowUp(env, FullList(env, s, req), j, v[j]))
              && (s.ecdhKey.Some? ==> forall j :: 0 <= j < |v| ==> v[j].key == s.ecdhKey)
              && (|v| >= n ==> Run(env, s1, es).assertion == None)
  {
    var live := Discoverable(env, s, req.rpId);
    var s1 := GetAssertion(env, s, req, meanwhile).0;
    if live == [] || !Consents(env, s, req.clientDataHash, req.rpId, meanwhile) {
      NothingToEnumerate(env, s1, es);
    } else {
      GrantedResident(env, s, req, meanwhile);
      RestShown(env, s1, FullList(env, s, req), es);
    }
  }

  /** The follow-ups to a first response, which has shown the first credential of `a`. */
  lemma RestShown(env: Env, s: State, a: AssertionState, es: seq<Event>)
    requires env.Lawful() && env.signer.Steady() && NoneStarts(es) && CursorSound(env, s)
    requires a.credentials != [] && a.currentIndex == 0
    requires s.assertion == if |a.credentials| > 1 then Some(a) else None
    ensures var v := Shown(env, s, es);
            && (forall j: nat :: j < |v| ==> FollowUp(env, a, j, v[j]))
            && (s.ecdhKey.Some? ==> forall j :: 0 <= j < |v| ==> v[j].key == s.ecdhKey)
            && (|v| >= |a.credentials| ==> Run(env, s, es).assertion == None)
  {
    if s.ecdhKey.Some? {
      KeyStays(env, s, es);
    }
    if |a.credentials| > 1 {
      FollowUpsInOrder(env, s, es);
    } else {
      NothingToEnumerate(env, s, es);
      var v := Shown(env, s, es);
      forall j: nat | j < |v|
        ensures FollowUp(env, a, j, v[j])
      {}
    }
  }

  /** The first response and the state it leaves. */
  lemma GrantedResident(env: Env, s: State, req: AssertRequest, meanwhile: seq<P.Act>)
    requires env.Lawful() && env.signer.Steady() && |req.clientDataHash| == 32 && req.allowList == []
    requires Discoverable(env, s, req.rpId) != [] && Consents(env, s, req.clientDataHash, req.rpId, meanwhile)
    ensures var live := Discoverable(env, s, req.rpId);
            var (s1, first) := GetAssertion(env, s, req, meanwhile);
            && ReplyFor(first, live[0], if |live| > 1 then |live| else 0)
            && (first.AssertionReply? <==> Answerable(env, s.ecdhKey, live[0], req.hmacSecret))
            && s1.assertion == Snapshot(env, s, req) && s1.ecdhKey == s.ecdhKey && CursorSound(env, s1)
  {
    var live := Discoverable(env, s, req.rpId);
    var hash := env.HashRPID(req.rpId);
    LiveSigns(env, ByRP(s.store.value.creds, req.rpId), hash);
    assert live[0] in live;
    GetAssertionCursor(env, s, req, meanwhile);
    var s0 := Ask(env, s, req.clientDataHash, req.rpId, meanwhile).0.(assertion := Snapshot(env, s, req));
    BuildFor(env, s0, live[0], hash, req.clientDataHash, req.hmacSecret, if |live| > 1 then |live| else 0);
  }
}
