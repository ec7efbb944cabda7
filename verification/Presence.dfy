/** The user-presence protocol: callers, prompts and their hand-off, as interleaved steps. */
module Presence {
  import opened Basics

  /** What a caller asks the user to approve. */
  datatype Pair = Pair(challenge: bytes, application: bytes)

  datatype PromptError = NoMethod | PromptTimedOut | CommandFailed(text: bytes)

  datatype Verdict = Approved | Denied(error: PromptError)

  /** A prompt goroutine: waiting for the user, offering its result on an unbuffered channel,
      about to clear the active request (`taker` received the result, if anyone), or finished. */
  datatype Prompt =
    | Prompting
    | Sending(v: Verdict)
    | Clearing(v: Verdict, taker: Option<nat>)
    | Done(v: Verdict, taker: Option<nat>)

  datatype Request = Request(pair: Pair, prompt: Prompt)

  /** One call of `ConfirmPresence` and of the select that waits on its channel. */
  datatype Caller =
    | Waiting(pair: Pair, req: nat)
    | Got(pair: Pair, req: nat, v: Verdict)
    | Expired(pair: Pair, req: nat)
    | Refused(pair: Pair)

  /** How a finished wait ends for the code that called `ConfirmPresence`. */
  datatype Answer = Busy | Granted | Declined | NoAnswer

  function AnswerTo(k: Caller): Answer
    requires !k.Waiting?
  {
    match k
    case Refused(_) => Busy
    case Expired(_, _) => NoAnswer
    case Got(_, _, v) => if v.Approved? then Granted else Declined
  }

  /** Requests and callers are numbered in order of arrival. `extenders` counts the goroutines
      offering a longer timeout, which no prompt ever receives. */
  datatype State = State(active: Option<nat>, requests: seq<Request>, callers: seq<Caller>, extenders: nat)

  const INITIAL := State(None, [], [], 0)

  datatype Act =
    | Call(pair: Pair)
    | Decide(r: nat, v: Verdict)
    | Deliver(r: nat, c: nat)
    | Abandon(r: nat)              // nobody received within two seconds
    | Clear(r: nat)
    | Expire(c: nat)               // the caller's own timeout
    | ExtenderGivesUp

  predicate Enabled(s: State, a: Act) {
    match a
    case Call(_) => true
    case Decide(r, _) => r < |s.requests| && s.requests[r].prompt.Prompting?
    case Deliver(r, c) =>
      && r < |s.requests| && s.requests[r].prompt.Sending?
      && c < |s.callers| && s.callers[c].Waiting? && s.callers[c].req == r
    case Abandon(r) => r < |s.requests| && s.requests[r].prompt.Sending?
    case Clear(r) => r < |s.requests| && s.requests[r].prompt.Clearing?
    case Expire(c) => c < |s.callers| && s.callers[c].Waiting?
    case ExtenderGivesUp => s.extenders > 0
  }

  function Confirm(s: State, pair: Pair): State {
    if s.active.Some? && s.active.value < |s.requests| then
      if s.requests[s.active.value].pair != pair then s.(callers := s.callers + [Refused(pair)])
      else s.(callers := s.callers + [Waiting(pair, s.active.value)], extenders := s.extenders + 1)
    else
      State(Some(|s.requests|), s.requests + [Request(pair, Prompting)],
            s.callers + [Waiting(pair, |s.requests|)], s.extenders)
  }

  function SetPrompt(s: State, r: nat, p: Prompt): State
    requires r < |s.requests|
  {
    s.(requests := s.requests[r := s.requests[r].(prompt := p)])
  }

  /** One step; a step that is not enabled changes nothing. Clearing is unconditional. */
  function Next(s: State, a: Act): State {
    if !Enabled(s, a) then s
    else match a
      case Call(pair) => Confirm(s, pair)
      case Decide(r, v) => SetPrompt(s, r, Sending(v))
      case Deliver(r, c) =>
        var v := s.requests[r].prompt.v;
        SetPrompt(s, r, Clearing(v, Some(c))).(callers := s.callers[c := Got(s.callers[c].pair, r, v)])
      case Abandon(r) => SetPrompt(s, r, Clearing(s.requests[r].prompt.v, None))
      case Clear(r) =>
        SetPrompt(s, r, Done(s.requests[r].prompt.v, s.requests[r].prompt.taker)).(active := None)
      case Expire(c) => s.(callers := s.callers[c := Expired(s.callers[c].pair, s.callers[c].req)])
      case ExtenderGivesUp => s.(extenders := s.extenders - 1)
  }

  function Run(s: State, acts: seq<Act>): State
    decreases |acts|
  {
    if acts == [] then s else Run(Next(s, acts[0]), acts[1..])
  }

  /** A handler's whole wait: its call, the steps `meanwhile` of everyone else, and its own timeout
      if it has no answer by then. A handler that is refused does not wait. */
  function Await(s: State, pair: Pair, meanwhile: seq<Act>): (r: (State, Caller))
    ensures !r.1.Waiting?
  {
    var c := |s.callers|;
    var called := Next(s, Call(pair));
    if called.callers[c].Refused? then (called, called.callers[c])
    else
      RunContinues(called, meanwhile);
      var done := Next(Run(called, meanwhile), Expire(c));
      (done, done.callers[c])
  }

  // ---------------------------------------------------------------- the locked sections

  class UserPresence {
    var activeRequest: Option<nat>
    var requests: seq<Request>
    var callers: seq<Caller>
    var extenders: nat

    function View(): State
      reads this
    {
      State(activeRequest, requests, callers, extenders)
    }

    constructor ()
      ensures View() == INITIAL
    {
      activeRequest, requests, callers, extenders := None, [], [], 0;
    }

    /** Returns the caller's number and the channel to wait on, named by its request, or no channel
        when another request is active. */
    method ConfirmPresence(pair: Pair) returns (caller: nat, channel: Option<nat>)
      requires Inv(View())
      modifies this
      ensures View() == Next(old(View()), Call(pair)) && Inv(View())
      ensures caller == |old(callers)| == |callers| - 1
      ensures channel == if callers[caller].Waiting? then Some(callers[caller].req) else None
      ensures channel.None? ==> callers[caller].Refused?
    {
      StepKeepsInv(View(), Call(pair));
      caller := |callers|;
      if activeRequest.Some? {
        var r := activeRequest.value;
        if pair != requests[r].pair {
          callers := callers + [Refused(pair)];
          return caller, None;
        }
        extenders := extenders + 1;
        callers := callers + [Waiting(pair, r)];
        return caller, Some(r);
      }
      activeRequest := Some(|requests|);
      requests := requests + [Request(pair, Prompting)];
      callers := callers + [Waiting(pair, |requests| - 1)];
      return caller, activeRequest;
    }

    /** The select of a handler that waits on its channel, while other goroutines take steps. */
    method Wait(caller: nat, meanwhile: seq<Act>) returns (k: Caller)
      requires Inv(View()) && caller < |callers|
      modifies this
      ensures View() == Next(Run(old(View()), meanwhile), Expire(caller)) && Inv(View())
      ensures caller < |callers| && k == callers[caller] && !k.Waiting?
      ensures old(callers[caller]).Waiting? ==> k.Got? || k.Expired?
    {
      RunContinues(View(), meanwhile);
      for i := 0 to |meanwhile|
        invariant Inv(View()) && Run(View(), meanwhile[i..]) == Run(old(View()), meanwhile)
      {
        assert meanwhile[i..][1..] == meanwhile[i + 1..];
        Take(meanwhile[i]);
      }
      Take(Expire(caller));
      return callers[caller];
    }

    /** One step of any goroutine. */
    method Take(a: Act)
      requires Inv(View())
      modifies this
      ensures View() == Next(old(View()), a) && Inv(View())
    {
      StepKeepsInv(View(), a);
      var t := Next(View(), a);
      activeRequest, requests, callers, extenders := t.active, t.requests, t.callers, t.extenders;
    }

    /** The end of `sendResult`; it forgets the active request without looking which one it is. */
    method ClearActive(r: nat)
      requires Inv(View()) && Enabled(View(), Clear(r))
      modifies this
      ensures View() == Next(old(View()), Clear(r)) && Inv(View())
      ensures old(activeRequest) == Some(r)
    {
      StepKeepsInv(View(), Clear(r));
      requests := requests[r := requests[r].(prompt := Done(requests[r].prompt.v, requests[r].prompt.taker))];
      activeRequest := None;
    }
  }

  // ---------------------------------------------------------------- the invariant

  ghost predicate ActiveExact(s: State) {
    forall r :: s.active == Some(r) <==> (0 <= r < |s.requests| && !s.requests[r].prompt.Done?)
  }

  ghost predicate CallerSound(s: State, c: nat)
    requires c < |s.callers|
  {
    var k := s.callers[c];
    k.Refused? || (k.req < |s.requests| && s.requests[k.req].pair == k.pair
                   && (k.Got? ==> var p := s.requests[k.req].prompt;
                                  (p.Clearing? || p.Done?) && p.v == k.v && p.taker == Some(c)))
  }

  ghost predicate TakerSound(s: State, r: nat)
    requires r < |s.requests|
  {
    var p := s.requests[r].prompt;
    (p.Clearing? || p.Done?) && p.taker.Some? ==>
      p.taker.value < |s.callers| && s.callers[p.taker.value] == Got(s.requests[r].pair, r, p.v)
  }

  ghost predicate Inv(s: State) {
    && ActiveExact(s)
    && (forall r: nat :: r < |s.requests| ==> TakerSound(s, r))
    && (forall c: nat :: c < |s.callers| ==> CallerSound(s, c))
  }

  lemma StepKeepsActive(s: State, a: Act)
    requires ActiveExact(s)
    ensures ActiveExact(Next(s, a))
  {
    if a.Clear? && Enabled(s, a) {
      assert s.active == Some(a.r);
    }
    if a.Call? {
      if s.active.Some? {
        assert s.active == Some(s.active.value);
      }
    }
  }

  lemma StepKeepsCallers(s: State, a: Act)
    requires Inv(s)
    ensures forall c: nat :: c < |Next(s, a).callers| ==> CallerSound(Next(s, a), c)
  {
    var t := Next(s, a);
    forall c: nat | c < |t.callers|
      ensures CallerSound(t, c)
    {
      if c < |s.callers| {
        assert CallerSound(s, c);
      } else if s.active.Some? {
        assert s.active == Some(s.active.value);
      }
    }
  }

  lemma StepKeepsTakers(s: State, a: Act)
    requires Inv(s)
    ensures forall r: nat :: r < |Next(s, a).requests| ==> TakerSound(Next(s, a), r)
  {
    var t := Next(s, a);
    forall r: nat | r < |t.requests|
      ensures TakerSound(t, r)
    {
      if r < |s.requests| {
        assert TakerSound(s, r);
      }
      if a.Deliver? && Enabled(s, a) {
        assert CallerSound(s, a.c);
      }
    }
  }

  lemma StepKeepsInv(s: State, a: Act)
    requires Inv(s)
    ensures Inv(Next(s, a))
  {
    StepKeepsTakers(s, a);
    StepKeepsActive(s, a);
    StepKeepsCallers(s, a);
  }

  lemma {:induction false} RunKeepsInv(s: State, acts: seq<Act>)
    requires Inv(s)
    ensures Inv(Run(s, acts))
    decreases |acts|
  {
    if acts != [] {
      StepKeepsInv(s, acts[0]);
      RunKeepsInv(Next(s, acts[0]), acts[1..]);
    }
  }

  // ---------------------------------------------------------------- what a run never changes

  predicate Decided(p: Prompt) { !p.Prompting? }

  ghost predicate Continues(s: State, t: State) {
    && |s.requests| <= |t.requests| && |s.callers| <= |t.callers|
    && (forall r :: 0 <= r < |s.requests| ==>
          && t.requests[r].pair == s.requests[r].pair
          && (Decided(s.requests[r].prompt) ==>
                Decided(t.requests[r].prompt) && t.requests[r].prompt.v == s.requests[r].prompt.v)
          && (s.requests[r].prompt.Clearing? || s.requests[r].prompt.Done? ==>
                (t.requests[r].prompt.Clearing? || t.requests[r].prompt.Done?)
                && t.requests[r].prompt.taker == s.requests[r].prompt.taker))
    && (forall c :: 0 <= c < |s.callers| ==>
          && t.callers[c].pair == s.callers[c].pair
          && (!s.callers[c].Waiting? ==> t.callers[c] == s.callers[c])
          && (s.callers[c].Waiting? ==> !t.callers[c].Refused? && t.callers[c].req == s.callers[c].req))
  }

  lemma StepContinues(s: State, a: Act)
    ensures Continues(s, Next(s, a))
  {}

  lemma {:induction false} RunContinues(s: State, acts: seq<Act>)
    ensures Continues(s, Run(s, acts))
    decreases |acts|
  {
    if acts != [] {
      StepContinues(s, acts[0]);
      RunContinues(Next(s, acts[0]), acts[1..]);
    }
  }

  // ---------------------------------------------------------------- safety

  lemma AnsweredCallers(s: State)
    requires Inv(s)
    ensures forall c: nat :: c < |s.callers| && s.callers[c].Got? ==>
              var k := s.callers[c];
              && k.req < |s.requests| && s.requests[k.req].pair == k.pair
              && Decided(s.requests[k.req].prompt) && s.requests[k.req].prompt.v == k.v
              && (s.requests[k.req].prompt.Clearing? || s.requests[k.req].prompt.Done?)
              && s.requests[k.req].prompt.taker == Some(c)
  {
    forall c: nat | c < |s.callers| && s.callers[c].Got?
      ensures CallerSound(s, c)
    {}
  }

  lemma NoSecondTaker(s: State, t: State, c: nat)
    requires Inv(s) && Inv(t) && Continues(s, t)
    requires c < |s.callers| && s.callers[c].Waiting?
    requires s.callers[c].req < |s.requests|
    requires var p := s.requests[s.callers[c].req].prompt; p.Clearing? || p.Done?
    ensures !t.callers[c].Got?
  {
    assert CallerSound(t, c);
    assert TakerSound(s, s.callers[c].req);
  }

  /** In every reachable state: a caller that was answered consumed the verdict of a prompt
      started for exactly its own pair, and no prompt answered two callers. */
  lemma Authorisation(acts: seq<Act>)
    ensures var s := Run(INITIAL, acts);
            forall c: nat :: c < |s.callers| && s.callers[c].Got? ==>
              var k := s.callers[c];
              && k.req < |s.requests|
              && s.requests[k.req].pair == k.pair
              && Decided(s.requests[k.req].prompt) && s.requests[k.req].prompt.v == k.v
    ensures var s := Run(INITIAL, acts);
            forall c: nat, d: nat ::
              (c < |s.callers| && d < |s.callers| && s.callers[c].Got? && s.callers[d].Got?
               && s.callers[c].req == s.callers[d].req) ==> c == d
  {
    RunKeepsInv(INITIAL, acts);
    AnsweredCallers(Run(INITIAL, acts));
  }

  /** In every reachable state the active request is the one unfinished prompt, so the
      unconditional clear only ever clears its own request. */
  lemma ClearsOwnRequest(acts: seq<Act>)
    ensures var s := Run(INITIAL, acts);
            && (forall r :: s.active == Some(r) <==> (0 <= r < |s.requests| && !s.requests[r].prompt.Done?))
            && (forall r: nat :: Enabled(s, Clear(r)) ==> s.active == Some(r))
            && (forall r: nat, q: nat :: r < |s.requests| && q < |s.requests| && r != q ==>
                  s.requests[r].prompt.Done? || s.requests[q].prompt.Done?)
  {
    RunKeepsInv(INITIAL, acts);
  }

  /** A caller whose own timeout struck never proceeds, and whatever the user then decides can
      only ever release a caller that asked for the same pair. */
  lemma OutlivedApproval(s: State, c: nat, acts: seq<Act>)
    requires Inv(s) && c < |s.callers| && s.callers[c].Expired?
    ensures var t := Run(s, acts);
            && c < |t.callers| && t.callers[c] == s.callers[c]
            && (forall d: nat :: d < |t.callers| && t.callers[d].Got? && t.callers[d].req == s.callers[c].req ==>
                  d != c && t.callers[d].pair == s.callers[c].pair)
  {
    RunKeepsInv(s, acts);
    RunContinues(s, acts);
    var t := Run(s, acts);
    assert CallerSound(s, c);
    AnsweredCallers(t);
  }

  ghost predicate Answered(s: State, acts: seq<Act>, c: nat) {
    c < |Run(s, acts).callers| && Run(s, acts).callers[c].Got?
  }

  /** A waiting caller can still be answered exactly while its prompt has not handed over its
      verdict: one that joins between the hand-off and the clear waits in vain. */
  lemma MayBeAnsweredIff(s: State, c: nat, v: Verdict)
    requires Inv(s) && c < |s.callers| && s.callers[c].Waiting?
    ensures s.callers[c].req < |s.requests|
    ensures (exists acts :: Answered(s, acts, c))
       <==> var p := s.requests[s.callers[c].req].prompt; p.Prompting? || p.Sending?
  {
    assert CallerSound(s, c);
    var r := s.callers[c].req;
    var p := s.requests[r].prompt;
    if p.Prompting? {
      var t := Next(s, Decide(r, v));
      var script := [Decide(r, v), Deliver(r, c)];
      assert script[1..] == [Deliver(r, c)] && [Deliver(r, c)][1..] == [];
      assert Run(s, script) == Run(t, [Deliver(r, c)]) == Run(Next(t, Deliver(r, c)), []);
      assert Answered(s, script, c);
    } else if p.Sending? {
      assert [Deliver(r, c)][1..] == [];
      assert Run(s, [Deliver(r, c)]) == Run(Next(s, Deliver(r, c)), []);
      assert Answered(s, [Deliver(r, c)], c);
    } else {
      forall acts | Answered(s, acts, c)
        ensures false
      {
        RunContinues(s, acts);
        RunKeepsInv(s, acts);
        NoSecondTaker(s, Run(s, acts), c);
      }
    }
  }

  /** Before the call: a caller for `pair` has a chance of an answer exactly when nothing is active,
      or a prompt for the same pair that has not yet handed over its verdict. */
  lemma CallMayBeAnsweredIff(s: State, pair: Pair, v: Verdict)
    requires Inv(s)
    ensures (exists acts :: Answered(Next(s, Call(pair)), acts, |s.callers|))
       <==> s.active.None?
            || (s.active.value < |s.requests| && s.requests[s.active.value].pair == pair
                && !s.requests[s.active.value].prompt.Clearing?)
  {
    var t := Next(s, Call(pair));
    var c := |s.callers|;
    assert s.active.Some? ==> s.active == Some(s.active.value);
    StepKeepsInv(s, Call(pair));
    if t.callers[c].Waiting? {
      MayBeAnsweredIff(t, c, v);
    } else {
      forall acts | Answered(t, acts, c)
        ensures false
      {
        RunContinues(t, acts);
      }
    }
  }

  /** Such a stranded caller is reachable: the same pair is asked for twice, and the second call
      comes between the hand-off to the first and the clear. */
  lemma StrandedCaller(pair: Pair, v: Verdict, acts: seq<Act>)
    ensures var s := Run(INITIAL, [Call(pair), Decide(0, v), Deliver(0, 0), Call(pair)]);
            |s.callers| == 2 && s.callers[1] == Waiting(pair, 0) && !Answered(s, acts, 1)
  {
    var script := [Call(pair), Decide(0, v), Deliver(0, 0), Call(pair)];
    assert script[1..] == [Decide(0, v), Deliver(0, 0), Call(pair)];
    assert script[1..][1..] == [Deliver(0, 0), Call(pair)];
    assert script[1..][1..][1..] == [Call(pair)];
    assert [Call(pair)][1..] == [];
    var s1 := Next(INITIAL, Call(pair));
    var s2 := Next(s1, Decide(0, v));
    var s3 := Next(s2, Deliver(0, 0));
    var s4 := Next(s3, Call(pair));
    assert Run(INITIAL, script) == Run(s1, script[1..]) == Run(s2, script[1..][1..]) == Run(s3, [Call(pair)])
        == Run(s4, []) == s4;
    RunKeepsInv(INITIAL, script);
    if Answered(s4, acts, 1) {
      MayBeAnsweredIff(s4, 1, v);
    }
  }

  // ---------------------------------------------------------------- waits

  /** Caller `c` was released by an approved prompt for `pair`, and no other caller was. */
  ghost predicate ReleasedBy(s: State, c: nat, pair: Pair) {
    && c < |s.callers| && s.callers[c].Got? && s.callers[c].req < |s.requests|
    && s.requests[s.callers[c].req].pair == pair
    && Decided(s.requests[s.callers[c].req].prompt)
    && s.requests[s.callers[c].req].prompt.v == Approved
    && forall d: nat :: d < |s.callers| && s.callers[d].Got? && s.callers[d].req == s.callers[c].req ==> d == c
  }

  lemma {:induction false} RunSplits(s: State, a: seq<Act>, b: seq<Act>)
    ensures Run(s, a + b) == Run(Run(s, a), b)
    decreases |a|
  {
    if a == [] {
      assert a + b == b;
    } else {
      assert (a + b)[1..] == a[1..] + b;
      RunSplits(Next(s, a[0]), a[1..], b);
    }
  }

  /** The steps that a whole wait consists of. */
  function StepsOfWait(s: State, pair: Pair, meanwhile: seq<Act>): seq<Act> {
    if Next(s, Call(pair)).callers[|s.callers|].Refused? then [Call(pair)]
    else [Call(pair)] + (meanwhile + [Expire(|s.callers|)])
  }

  /** A wait is a run of the protocol that begins with the handler's own call. */
  lemma AwaitIsRun(s: State, pair: Pair, meanwhile: seq<Act>)
    ensures Await(s, pair, meanwhile).0 == Run(s, StepsOfWait(s, pair, meanwhile))
  {
    var called := Next(s, Call(pair));
    var e := Expire(|s.callers|);
    assert Run(called, []) == called;
    assert ([Call(pair)] + (meanwhile + [e]))[1..] == meanwhile + [e];
    RunSplits(called, meanwhile, [e]);
    assert Run(Run(called, meanwhile), [e]) == Run(Next(Run(called, meanwhile), e), []);
  }

  /** A wait that is granted was granted by the user, for the pair asked for and to this caller
      alone; no step that follows can release another. */
  lemma GrantedIsReleased(s: State, pair: Pair, meanwhile: seq<Act>, later: seq<Act>)
    requires Inv(s)
    ensures var (t, k) := Await(s, pair, meanwhile);
            Inv(t) && (AnswerTo(k).Granted? ==> ReleasedBy(Run(t, later), |s.callers|, pair))
  {
    var (t, k) := Await(s, pair, meanwhile);
    var c := |s.callers|;
    AwaitIsRun(s, pair, meanwhile);
    RunKeepsInv(s, StepsOfWait(s, pair, meanwhile));
    if AnswerTo(k).Granted? {
      var called := Next(s, Call(pair));
      RunContinues(called, meanwhile);
      assert t.callers[c] == k && k.pair == pair;
      RunKeepsInv(t, later);
      RunContinues(t, later);
      AnsweredCallers(Run(t, later));
    }
  }

  // ---------------------------------------------------------------- how a wait ends

  /** Where the steps `meanwhile`, after its own call, leave a handler that calls now. */
  function EndOf(s: State, pair: Pair, meanwhile: seq<Act>): Caller {
    RunContinues(Next(s, Call(pair)), meanwhile);
    Run(Next(s, Call(pair)), meanwhile).callers[|s.callers|]
  }

  /** The user approved and the approval was delivered to the handler that calls now. */
  predicate Approves(s: State, pair: Pair, meanwhile: seq<Act>) {
    EndOf(s, pair, meanwhile).Got? && EndOf(s, pair, meanwhile).v == Approved
  }

  /** A wait ends as the steps leave it, or by the handler's own timeout. */
  lemma AwaitEnds(s: State, pair: Pair, meanwhile: seq<Act>)
    ensures var k, e := Await(s, pair, meanwhile).1, EndOf(s, pair, meanwhile);
            k == if e.Waiting? then Expired(e.pair, e.req) else e
  {
    RunContinues(Next(s, Call(pair)), meanwhile);
  }

  /** An approval releases the handler it was delivered to, and nothing else does. */
  lemma GrantedIffApproves(s: State, pair: Pair, meanwhile: seq<Act>)
    ensures AnswerTo(Await(s, pair, meanwhile).1) == Granted <==> Approves(s, pair, meanwhile)
  {
    AwaitEnds(s, pair, meanwhile);
  }

  /** A handler is refused exactly when another pair is active at its call. */
  lemma RefusedIff(s: State, pair: Pair, meanwhile: seq<Act>)
    requires Inv(s)
    ensures s.active.Some? ==> s.active.value < |s.requests|
    ensures EndOf(s, pair, meanwhile).Refused? <==> s.active.Some? && s.requests[s.active.value].pair != pair
  {
    assert s.active.Some? ==> s.active == Some(s.active.value);
    RunContinues(Next(s, Call(pair)), meanwhile);
  }

  /** The two steps with which the user's verdict reaches a handler that calls now. */
  function Deciding(s: State, v: Verdict): seq<Act> {
    [Decide(|s.requests|, v), Deliver(|s.requests|, |s.callers|)]
  }

  /** With nothing active a verdict gets through: a handler that calls now is prompted for, and the
      two steps of its prompt bring it the user's verdict. */
  lemma VerdictArrives(s: State, pair: Pair, v: Verdict)
    requires s.active.None?
    ensures EndOf(s, pair, Deciding(s, v)) == Got(pair, |s.requests|, v)
    ensures Approves(s, pair, Deciding(s, v)) <==> v == Approved
  {
    var r, c := |s.requests|, |s.callers|;
    var s1 := Next(s, Call(pair));
    var s2 := Next(s1, Decide(r, v));
    var s3 := Next(s2, Deliver(r, c));
    var acts := Deciding(s, v);
    assert acts[1..] == [Deliver(r, c)] && [Deliver(r, c)][1..] == [];
    assert Run(s1, acts) == Run(s2, [Deliver(r, c)]) == Run(s3, []) == s3;
    assert s3.callers[c] == Got(pair, r, v);
  }

  // ---------------------------------------------------------------- progress

  function Rank(p: Prompt): nat {
    match p
    case Prompting => 3
    case Sending(_) => 2
    case Clearing(_, _) => 1
    case Done(_, _) => 0
  }

  /** The steps of prompt goroutine `r`. */
  predicate StepOf(a: Act, r: nat) {
    match a
    case Decide(q, _) => q == r
    case Deliver(q, _) => q == r
    case Abandon(q) => q == r
    case Clear(q) => q == r
    case _ => false
  }

  function StepsTaken(s: State, acts: seq<Act>, r: nat): nat
    decreases |acts|
  {
    if acts == [] then 0
    else (if StepOf(acts[0], r) && Enabled(s, acts[0]) then 1 else 0) + StepsTaken(Next(s, acts[0]), acts[1..], r)
  }

  /** Each step of a prompt brings it exactly one nearer to its clear and nothing else moves it:
      not joining callers, not timeouts, not extension goroutines. */
  lemma {:induction false} PromptCountsDown(s: State, acts: seq<Act>, r: nat)
    requires r < |s.requests|
    ensures var t := Run(s, acts);
            r < |t.requests| && Rank(t.requests[r].prompt) + StepsTaken(s, acts, r) == Rank(s.requests[r].prompt)
    decreases |acts|
  {
    if acts != [] {
      PromptCountsDown(Next(s, acts[0]), acts[1..], r);
    }
  }

  /** While a request is active its prompt always has a step to take. */
  lemma PromptCanMove(s: State, v: Verdict)
    requires Inv(s) && s.active.Some?
    ensures exists a :: StepOf(a, s.active.value) && Enabled(s, a)
  {
    var r := s.active.value;
    assert s.active == Some(r);
    assert StepOf(Decide(r, v), r) && StepOf(Abandon(r), r) && StepOf(Clear(r), r);
    assert Enabled(s, Decide(r, v)) || Enabled(s, Abandon(r)) || Enabled(s, Clear(r));
  }

  /** Three steps of its prompt, however interleaved, free the authenticator for other requests. */
  lemma ClearedAfterThreeSteps(s: State, acts: seq<Act>)
    requires Inv(s) && s.active.Some? && StepsTaken(s, acts, s.active.value) >= 3
    ensures var r := s.active.value;
            var t := Run(s, acts);
            StepsTaken(s, acts, r) == 3 && t.active != s.active && r < |t.requests| && t.requests[r].prompt.Done?
  {
    var r := s.active.value;
    assert s.active == Some(r);
    PromptCountsDown(s, acts, r);
    RunKeepsInv(s, acts);
    var t := Run(s, acts);
    assert t.active == Some(r) <==> 0 <= r < |t.requests| && !t.requests[r].prompt.Done?;
  }
}
