/** What a process finds on disk after any run of the one before it. */
module Restart {
  import opened Basics
  import opened Storage
  import opened StoreMap
  import opened Persistence
  import opened A = Authenticator
  import opened History
  import Enumeration
  import P = Presence

  function FaultOf(e: Event): Fault {
    match e
    case Command(CmdMakeCredential(_, _, o)) => o.fault
    case CreateDirect(_, o) => o.fault
    case SaveCredential(_, f) => f
    case DeleteCredential(_, f) => f
    case _ => NoFault
  }

  /** The event starts a save of the credential list. */
  predicate StartsSave(env: Env, s: A.State, e: Event)
    requires env.Lawful() && s.store.Some?
  {
    var edit := EditOf(env, s, e);
    edit.Some? && Saves(s.store.value.creds, edit.value)
  }

  /** The file holds what memory does, as after loading it or after a save that succeeded. */
  ghost predicate InStep(env: Env, s: A.State) {
    s.store.Some? && FileHolds(env.codec, s.store.value.files, s.store.value.creds)
  }

  /** The files after an event whose save, if it starts one, ends with `fault`. */
  function FilesAfter(env: Env, s: A.State, t: A.State, saves: bool, fault: Fault): Files
    requires s.store.Some? && t.store.Some?
  {
    if saves then Written(s.store.value.files, env.codec.marshal(t.store.value.creds), fault) else s.store.value.files
  }

  lemma RegisterFiles(env: Env, s: A.State, p: CreateParams, o: Outcome)
    requires env.Lawful() && s.store.Some?
    ensures var t := Register(env, s, p, o).0;
            t.store.Some?
            && t.store.value.files == FilesAfter(env, s, t, p.residentKey && o.key.Some?, o.fault)
  {}

  lemma MakeFiles(env: Env, s: A.State, p: CreateParams, es256: bool, meanwhile: seq<P.Act>, o: Outcome)
    requires env.Lawful() && s.store.Some?
    ensures var t := MakeCredential(env, s, p, es256, meanwhile, o).0;
            t.store.Some?
            && t.store.value.files == FilesAfter(
                 env, s, t, AddedByCommand(env, s, p, es256, meanwhile, o).Some?, o.fault)
  {
    RegisterFiles(env, Ask(env, s, p.clientDataHash, p.rpId, meanwhile).0, p, o);
  }

  lemma CommandFiles(env: Env, s: A.State, cmd: A.Command)
    requires env.Lawful() && s.store.Some?
    ensures var t := HandleCommand(env, s, cmd).0;
            t.store.Some?
            && t.store.value.files == FilesAfter(
                 env, s, t, StartsSave(env, s, Event.Command(cmd)), FaultOf(Event.Command(cmd)))
  {
    if cmd.CmdMakeCredential? {
      if cmd.make.Some? {
        MakeFiles(env, s, cmd.make.value.0, cmd.make.value.1, cmd.meanwhile, cmd.outcome);
      }
    } else {
      Enumeration.QuietCommandFrame(env, s, cmd);
    }
  }

  /** Every event that edits the list writes the edited list to the file, and no other touches it. */
  lemma StepFiles(env: Env, s: A.State, e: Event)
    requires env.Lawful() && s.store.Some?
    ensures var t := A.Step(env, s, e).0;
            t.store.Some?
            && t.store.value.files == FilesAfter(env, s, t, StartsSave(env, s, e), FaultOf(e))
  {
    match e
    case Command(cmd) => CommandFiles(env, s, cmd);
    case CreateDirect(p, o) => RegisterFiles(env, s, p, o);
    case GetDirect(g) => Enumeration.DirectFrame(env, s, g);
    case _ =>
  }

  lemma {:induction false} StoreStays(env: Env, s: A.State, es: seq<Event>)
    requires env.Lawful() && s.store.Some?
    ensures A.Run(env, s, es).store.Some?
    decreases |es|
  {
    if es != [] {
      StepEdits(env, s, es[0]);
      StoreStays(env, A.Step(env, s, es[0]).0, es[1..]);
    }
  }

  ghost predicate AllFail(env: Env, s: A.State, es: seq<Event>, n: nat)
    requires env.Lawful() && s.store.Some? && n <= |es|
  {
    forall i :: n <= i < |es| ==>
      var u := A.Run(env, s, es[..i]);
      u.store.Some? && (StartsSave(env, u, es[i]) ==> FaultOf(es[i]) != NoFault)
  }

  /** After any run, the file holds the whole list as memory had it after some first `n` events
      (for n = 0, what the file held before), and every save begun after those failed. */
  lemma {:induction false} FileIsAMoment(env: Env, s: A.State, es: seq<Event>) returns (n: nat)
    requires env.Lawful() && env.codec.Lawful()
    requires InStep(env, s)
    ensures n <= |es| && AllFail(env, s, es, n)
    ensures var t, u := A.Run(env, s, es), A.Run(env, s, es[..n]);
            t.store.Some? && u.store.Some? && FileHolds(env.codec, t.store.value.files, u.store.value.creds)
    decreases |es|
  {
    StoreStays(env, s, es);
    if es == [] {
      n := 0;
      assert es[..0] == [];
    } else {
      var m := |es| - 1;
      var front, e := es[..m], es[m];
      var u := A.Run(env, s, front);
      LastStep(env, s, es);
      StoreStays(env, s, front);
      StepFiles(env, u, e);
      if StartsSave(env, u, e) && FaultOf(e) == NoFault {
        n := |es|;
        assert es[..n] == es;
      } else {
        n := FileIsAMoment(env, s, front);
        assert front[..n] == es[..n];
        forall i | n <= i < |es|
          ensures var v := A.Run(env, s, es[..i]);
                  v.store.Some? && (StartsSave(env, v, es[i]) ==> FaultOf(es[i]) != NoFault)
        {
          assert es[..i] == front[..i];
        }
      }
    }
  }

  /** A restart after any run finds a list memory once had, and every credential on it signs. */
  lemma RestartedCredentialsSign(env: Env, s: A.State, es: seq<Event>)
    requires env.Lawful() && env.codec.Lawful() && AllGenuine(env, es)
    requires InStep(env, s) && AllSign(env, s.store.value.creds)
    ensures var t := A.Run(env, s, es);
            t.store.Some? && AllSign(env, Loaded(env.codec, t.store.value.files, true))
  {
    var n := FileIsAMoment(env, s, es);
    StoredCredentialsSign(env, s, es[..n]);
  }

  /** The next process on the files that a run leaves. */
  function Restarted(env: Env, s: A.State, ticks: nat): A.State
    requires s.store.Some?
  {
    var files := s.store.value.files;
    A.State(Some(Store(Loaded(env.codec, files, true), files)), None, None, ticks, P.INITIAL)
  }

  lemma {:induction false} SparesPrefix(env: Env, s: A.State, es: seq<Event>, n: nat, c: Credential)
    requires env.Lawful() && n <= |es| && AllSpare(env, s, es, c)
    ensures AllSpare(env, s, es[..n], c)
    decreases n
  {
    if n > 0 {
      assert es[..n][1..] == es[1..][..n - 1];
      SparesPrefix(env, A.Step(env, s, es[0]).0, es[1..], n - 1, c);
    }
  }

  /** A resident registration that was saved is on disk after any later events that spare it, even
      if all their saves fail. */
  lemma RegisteredIsOnDisk(env: Env, s: A.State, e: Event, p: CreateParams, o: Outcome, es: seq<Event>)
    requires env.Lawful() && env.codec.Lawful()
    requires InStep(env, s) && AllSign(env, s.store.value.creds)
    requires Registers(env, s, e, p, o) && GenuineKey(env, p.rpId, o) && o.fault == NoFault
    requires AllGenuine(env, es) && AllSpare(env, A.Step(env, s, e).0, es, NewCredential(p, o))
    ensures var t := A.Run(env, A.Step(env, s, e).0, es);
            t.store.Some?
            && var held := Loaded(env.codec, t.store.value.files, true);
               NewCredential(p, o) in held && AllSign(env, held)
  {
    var c := NewCredential(p, o);
    var s1 := A.Step(env, s, e).0;
    RegistrationStores(env, s, e, p, o);
    var n := FileIsAMoment(env, s, [e] + es);
    LaterMoment(env, s, e, es, n);
    SparesPrefix(env, s1, es, n - 1, c);
    Survives(env, s1, es[..n - 1], c);
    StoredCredentialsSign(env, s1, es[..n - 1]);
  }

  /** A successful save puts the moment that the file shows after its own event. */
  lemma LaterMoment(env: Env, s: A.State, e: Event, es: seq<Event>, n: nat)
    requires env.Lawful() && s.store.Some? && n <= |[e] + es|
    ensures StartsSave(env, s, e) && FaultOf(e) == NoFault && AllFail(env, s, [e] + es, n) ==> n > 0
    ensures n > 0 ==> A.Run(env, s, ([e] + es)[..n]) == A.Run(env, A.Step(env, s, e).0, es[..n - 1])
    ensures A.Run(env, s, [e] + es) == A.Run(env, A.Step(env, s, e).0, es)
  {
    var all := [e] + es;
    assert all[1..] == es;
    assert A.Run(env, s, all[..0]) == s && all[0] == e;
    if n > 0 {
      assert all[..n][1..] == es[..n - 1];
    }
  }

  /** So it stays in use through a restart, and through all that the next process does but
      overwrite or delete it. */
  lemma RegisteredCredentialOutlivesProcess(env: Env, s: A.State, e: Event, p: CreateParams, o: Outcome, es: seq<Event>,
                                            ticks: nat, more: seq<Event>)
    requires Ideal(env) && env.codec.Lawful()
    requires InStep(env, s) && AllSign(env, s.store.value.creds)
    requires Registers(env, s, e, p, o) && GenuineKey(env, p.rpId, o) && o.fault == NoFault
    requires AllGenuine(env, es) && AllSpare(env, A.Step(env, s, e).0, es, NewCredential(p, o))
    requires AllGenuine(env, more)
    ensures var t := A.Run(env, A.Step(env, s, e).0, es);
            t.store.Some?
            && var u := Restarted(env, t, ticks);
               AllSpare(env, u, more, NewCredential(p, o)) ==> Lives(env, A.Run(env, u, more), NewCredential(p, o))
  {
    RegisteredIsOnDisk(env, s, e, p, o, es);
    var u := Restarted(env, A.Run(env, A.Step(env, s, e).0, es), ticks);
    if AllSpare(env, u, more, NewCredential(p, o)) {
      Survives(env, u, more, NewCredential(p, o));
      StoredCredentialsSign(env, u, more);
      StoredLives(env, A.Run(env, u, more), NewCredential(p, o));
    }
  }

  lemma {:induction false} RunKeepsDistinct(env: Env, s: A.State, es: seq<Event>)
    requires env.Lawful() && s.store.Some? && Distinct(s.store.value.creds)
    ensures var t := A.Run(env, s, es); t.store.Some? && Distinct(t.store.value.creds)
    decreases |es|
  {
    if es != [] {
      StepEdits(env, s, es[0]);
      match EditOf(env, s, es[0]) {
        case None =>
        case Some(SaveOf(c)) => SaveRefines(s.store.value.creds, c);
        case Some(DeleteOf(id)) => DeleteRefines(s.store.value.creds, id);
      }
      RunKeepsDistinct(env, A.Step(env, s, es[0]).0, es[1..]);
    }
  }

  /** One credential for each (relying party, user) survives any run followed by a restart. */
  lemma RestartedKeysDistinct(env: Env, s: A.State, es: seq<Event>)
    requires env.Lawful() && env.codec.Lawful()
    requires InStep(env, s) && Distinct(s.store.value.creds)
    ensures var t := A.Run(env, s, es);
            t.store.Some? && Distinct(Loaded(env.codec, t.store.value.files, true))
  {
    var n := FileIsAMoment(env, s, es);
    RunKeepsDistinct(env, s, es[..n]);
  }
}
