/** Saving as the steps a crash can fall between: write the temporary file, then rename it. */
module Persistence {
  import opened Basics
  import opened Storage
  import opened StoreMap

  datatype Phase = Idle | Writing(data: bytes) | Renaming

  /** The files, the list in memory and how far a save has come. `durable` is a history
      variable: the list in memory when a rename last succeeded. */
  datatype Host = Host(files: Files, mem: seq<Credential>, phase: Phase, durable: seq<Credential>)

  datatype Act =
    | Begin(e: Edit)           // change the list in memory and start saving it
    | WriteSome(n: nat)        // the temporary file holds this much of the data
    | WriteAll
    | Abort                    // a file operation fails and the save returns its error
    | Rename
    | Crash(readable: bool)    // the process ends here and a new one starts on these files

  /** Deleting an ID that is not stored starts no save. */
  predicate Saves(mem: seq<Credential>, e: Edit) {
    e.DeleteOf? ==> LastById(mem, e.id).Some?
  }

  /** One step; an act that does not apply leaves the host as it is. */
  function Next(codec: Codec, s: Host, a: Act): Host {
    match (a, s.phase)
    case (Begin(e), Idle) =>
      var mem := Edited(s.mem, e);
      if Saves(s.mem, e) then s.(mem := mem, phase := Writing(codec.marshal(mem))) else s.(mem := mem)
    case (WriteSome(n), Writing(data)) =>
      s.(files := s.files.(tmp := Some(if n <= |data| then data[..n] else data)))
    case (WriteAll, Writing(data)) =>
      s.(files := s.files.(tmp := Some(data)), phase := Renaming)
    case (Abort, _) => s.(phase := Idle)
    case (Rename, Renaming) =>
      s.(files := Files(s.files.tmp, None), phase := Idle, durable := s.mem)
    case (Crash(readable), _) =>
      s.(mem := Loaded(codec, s.files, readable), phase := Idle)
    case _ => s
  }

  function Run(codec: Codec, s: Host, acts: seq<Act>): Host
    decreases |acts|
  {
    if acts == [] then s else Run(codec, Next(codec, s, acts[0]), acts[1..])
  }

  /** The credentials file is a complete serialisation of `creds`; no file stands for no credentials. */
  ghost predicate FileHolds(codec: Codec, f: Files, creds: seq<Credential>) {
    f.main == Some(codec.marshal(creds)) || (f.main == None && creds == [])
  }

  ghost predicate Inv(codec: Codec, s: Host) {
    && FileHolds(codec, s.files, s.durable)
    && (s.phase.Writing? ==> s.phase.data == codec.marshal(s.mem))
    && (s.phase.Renaming? ==> s.files.tmp == Some(codec.marshal(s.mem)))
  }

  lemma {:induction false} RunKeepsInv(codec: Codec, s: Host, acts: seq<Act>)
    requires codec.Lawful() && Inv(codec, s)
    ensures Inv(codec, Run(codec, s, acts))
    decreases |acts|
  {
    if acts != [] {
      RunKeepsInv(codec, Next(codec, s, acts[0]), acts[1..]);
    }
  }

  predicate Quiet(acts: seq<Act>) {
    forall i :: 0 <= i < |acts| ==> !acts[i].Begin?
  }

  /** What every moment of one operation keeps: the durable list is the one before it or the one
      it makes, and memory is either of them or what a restart read. */
  ghost predicate Within(s: Host, before: seq<Credential>, after: seq<Credential>) {
    && (s.durable == before || s.durable == after)
    && (s.phase != Idle ==> s.mem == after)
  }

  lemma {:induction false} QuietRunStaysWithin(codec: Codec, s: Host, acts: seq<Act>, before: seq<Credential>,
                                               after: seq<Credential>)
    requires codec.Lawful() && Inv(codec, s) && Within(s, before, after) && Quiet(acts)
    ensures Within(Run(codec, s, acts), before, after)
    decreases |acts|
  {
    if acts != [] {
      QuietRunStaysWithin(codec, Next(codec, s, acts[0]), acts[1..], before, after);
    }
  }

  /** Wherever a crash falls in an operation, the credentials file is the complete serialisation
      of the durable list before it or of the list it makes, and the next process loads that list. */
  lemma CrashSafety(codec: Codec, s: Host, e: Edit, acts: seq<Act>)
    requires codec.Lawful() && Inv(codec, s) && s.phase == Idle && Quiet(acts)
    ensures var t := Run(codec, s, [Begin(e)] + acts);
            var u := Next(codec, t, Crash(true));
            && (t.durable == s.durable || t.durable == Edited(s.mem, e))
            && FileHolds(codec, t.files, t.durable)
            && u.mem == t.durable && Inv(codec, u) && u.phase == Idle
  {
    var script := [Begin(e)] + acts;
    assert script[0] == Begin(e) && script[1..] == acts;
    var t := Next(codec, s, Begin(e));
    RunKeepsInv(codec, s, [Begin(e)]);
    assert Run(codec, s, [Begin(e)]) == Run(codec, t, []);
    RunKeepsInv(codec, t, acts);
    QuietRunStaysWithin(codec, t, acts, s.durable, Edited(s.mem, e));
  }

  // ---------------------------------------------------------------- the store's own save

  function ActsOf(fault: Fault): seq<Act> {
    match fault
    case NoFault => [WriteAll, Rename]
    case OpenFails => [Abort]
    case WriteFails(n) => [WriteSome(n), Abort]
    case RenameFails => [WriteAll, Abort]
  }

  /** One edit of the store, as its methods perform it. */
  function Operate(codec: Codec, s: Host, e: Edit, fault: Fault): Host {
    var mem := Edited(s.mem, e);
    if !Saves(s.mem, e) then s.(mem := mem)
    else
      Host(Written(s.files, codec.marshal(mem), fault), mem, Idle, if fault.NoFault? then mem else s.durable)
  }

  /** Every outcome of the store's save is a run of the steps above. */
  lemma OperateIsRun(codec: Codec, s: Host, e: Edit, fault: Fault)
    requires s.phase == Idle
    ensures Run(codec, s, [Begin(e)] + ActsOf(fault)) == Operate(codec, s, e, fault)
  {
    var script := [Begin(e)] + ActsOf(fault);
    var t := Next(codec, s, Begin(e));
    assert script[1..] == ActsOf(fault);
    assert Run(codec, s, script) == Run(codec, t, ActsOf(fault));
    var acts := ActsOf(fault);
    var u := Next(codec, t, acts[0]);
    assert Run(codec, t, acts) == Run(codec, u, acts[1..]);
    if |acts| == 2 {
      assert acts[1..] == [acts[1]] && acts[1..][1..] == [];
      assert Run(codec, u, acts[1..]) == Run(codec, Next(codec, u, acts[1]), []);
    }
  }

  function OperateAll(codec: Codec, s: Host, ops: seq<(Edit, Fault)>): Host {
    if ops == [] then s
    else Operate(codec, OperateAll(codec, s, ops[..|ops| - 1]), ops[|ops| - 1].0, ops[|ops| - 1].1)
  }

  function Edits(ops: seq<(Edit, Fault)>): seq<Edit> {
    seq(|ops|, i requires 0 <= i < |ops| => ops[i].0)
  }

  /** The number of operations up to and including the last one that reached the disk. */
  function Committed(mem: seq<Credential>, ops: seq<(Edit, Fault)>): (k: nat)
    ensures k <= |ops|
  {
    if ops == [] then 0
    else
      var n := |ops| - 1;
      if ops[n].1.NoFault? && Saves(EditedAll(mem, Edits(ops[..n])), ops[n].0) then |ops|
      else Committed(mem, ops[..n])
  }

  lemma {:induction false} MemoryFollowsEdits(codec: Codec, s: Host, ops: seq<(Edit, Fault)>)
    ensures OperateAll(codec, s, ops).mem == EditedAll(s.mem, Edits(ops))
  {
    if ops == [] {
      assert Edits(ops) == [];
    } else {
      assert Edits(ops)[..|ops| - 1] == Edits(ops[..|ops| - 1]);
      MemoryFollowsEdits(codec, s, ops[..|ops| - 1]);
    }
  }

  lemma {:induction false} OperateAllKeepsInv(codec: Codec, s: Host, ops: seq<(Edit, Fault)>)
    requires codec.Lawful() && Inv(codec, s) && s.phase == Idle
    ensures var t := OperateAll(codec, s, ops); Inv(codec, t) && t.phase == Idle
  {
    if ops != [] {
      OperateAllKeepsInv(codec, s, ops[..|ops| - 1]);
    }
  }

  lemma {:induction false} DurableIsLastCommitted(codec: Codec, s: Host, ops: seq<(Edit, Fault)>)
    requires s.mem == s.durable
    ensures OperateAll(codec, s, ops).durable == EditedAll(s.mem, Edits(ops[..Committed(s.mem, ops)]))
  {
    if ops == [] {
      assert Edits(ops[..0]) == [];
    } else {
      var n := |ops| - 1;
      var k := Committed(s.mem, ops);
      MemoryFollowsEdits(codec, s, ops);
      MemoryFollowsEdits(codec, s, ops[..n]);
      DurableIsLastCommitted(codec, s, ops[..n]);
      assert ops[..|ops|] == ops;
      assert k <= n ==> ops[..k] == ops[..n][..k];
    }
  }

  /** Whatever saves fail, memory holds every edit and the file holds the edits up to the last
      save that succeeded, which include all earlier edits whose own save had failed. */
  lemma FileFollowsMemory(codec: Codec, s: Host, ops: seq<(Edit, Fault)>)
    requires codec.Lawful() && Inv(codec, s) && s.phase == Idle && s.mem == s.durable
    ensures var t := OperateAll(codec, s, ops);
            var onDisk := EditedAll(s.mem, Edits(ops[..Committed(s.mem, ops)]));
            && t.mem == EditedAll(s.mem, Edits(ops))
            && FileHolds(codec, t.files, onDisk)
            && Loaded(codec, t.files, true) == onDisk
  {
    MemoryFollowsEdits(codec, s, ops);
    OperateAllKeepsInv(codec, s, ops);
    DurableIsLastCommitted(codec, s, ops);
  }
}
