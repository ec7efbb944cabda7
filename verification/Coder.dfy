/** The streaming encoder and decoder, over a writer and a reader that may fail. */
module Coder {
  import opened Basics
  import opened Lencode

  // ---------------------------------------------------------------- encoding

  /** A writer, what reached it, and the encoder's sticky error. The writer fails with `fault`
      once `room` bytes are taken, after accepting those that still fit; `None` never fails. */
  datatype Out = Out(written: bytes, room: Option<nat>, fault: Error, err: Option<Error>)

  predicate Fits(o: Out, b: bytes) {
    o.room.Some? ==> |o.written| + |b| <= o.room.value
  }

  predicate Sound(o: Out) { Fits(o, []) }

  function Push(o: Out, b: bytes): Out
    requires Sound(o)
  {
    if o.err.Some? then o
    else if Fits(o, b) then o.(written := o.written + b)
    else o.(written := o.written + b[..o.room.value - |o.written|], err := Some(o.fault))
  }

  function Emit(sep: bytes, o: Out, msg: bytes): Out
    requires Sound(o)
  {
    if o.err.Some? then o
    else if |msg| > 255 then o.(err := Some(MessageTooLong))
    else Push(o, Frame(sep, msg))
  }

  /** Encoding a list of messages, ignoring what each call returns. */
  function EmitAll(sep: bytes, o: Out, msgs: seq<bytes>): Out
    requires Sound(o)
    decreases |msgs|
  {
    if msgs == [] then o else EmitAll(sep, Emit(sep, o, msgs[0]), msgs[1..])
  }

  /** The messages before the first one too long for a one-byte length. */
  function Accepted(msgs: seq<bytes>): (r: seq<bytes>)
    ensures Short(r) && r <= msgs
    ensures r == msgs <==> Short(msgs)
    ensures |r| < |msgs| ==> |msgs[|r|]| > 255
  {
    if msgs == [] || |msgs[0]| > 255 then []
    else
      var rest := Accepted(msgs[1..]);
      assert !Short(msgs[1..]) ==> exists i :: 0 <= i < |msgs[1..]| && |msgs[1..][i]| > 255;
      assert forall i :: 0 <= i < |msgs[1..]| ==> msgs[1..][i] == msgs[i + 1];
      [msgs[0]] + rest
  }

  lemma PushPush(o: Out, a: bytes, b: bytes)
    requires Sound(o)
    ensures Push(Push(o, a), b) == Push(o, a + b)
  {
    if o.err.None? {
      if Fits(o, a) {
        assert o.written + (a + b) == o.written + a + b;
        if !Fits(o, a + b) {
          var n := o.room.value - |o.written|;
          assert (a + b)[..n] == a + b[..n - |a|];
        }
      } else {
        var n := o.room.value - |o.written|;
        assert (a + b)[..n] == a[..n];
      }
    }
  }

  lemma {:induction false} StickyEncoder(sep: bytes, o: Out, msgs: seq<bytes>)
    requires Sound(o) && o.err.Some?
    ensures EmitAll(sep, o, msgs) == o
  {
    if msgs != [] {
      StickyEncoder(sep, o, msgs[1..]);
    }
  }

  /** With results ignored, the writer receives the encoding of the messages before the first
      oversized one, cut where the writer failed; nothing that follows an error gets through. */
  lemma {:induction false} EncoderOutput(sep: bytes, o: Out, msgs: seq<bytes>)
    requires Sound(o) && o.err.None?
    ensures var all := Encoding(sep, Accepted(msgs));
            EmitAll(sep, o, msgs) ==
            if !Fits(o, all) then Push(o, all)
            else Push(o, all).(err := if Short(msgs) then None else Some(MessageTooLong))
    decreases |msgs|
  {
    if msgs == [] {
      assert o.written + [] == o.written;
    } else if |msgs[0]| > 255 {
      var e := Emit(sep, o, msgs[0]);
      StickyEncoder(sep, e, msgs[1..]);
      assert o.written + [] == o.written;
    } else {
      var f, rest := Frame(sep, msgs[0]), Encoding(sep, Accepted(msgs[1..]));
      var e := Emit(sep, o, msgs[0]);
      assert Accepted(msgs)[1..] == Accepted(msgs[1..]);
      assert Encoding(sep, Accepted(msgs)) == f + rest;
      assert Accepted(msgs) == msgs <==> Accepted(msgs[1..]) == msgs[1..];
      PushPush(o, f, rest);
      if e.err.Some? {
        StickyEncoder(sep, e, msgs[1..]);
      } else {
        EncoderOutput(sep, e, msgs[1..]);
      }
    }
  }

  /** Whatever the writer's failure cuts off, a reader of what was written sees only whole
      messages in their order, and a clean end only between two of them. */
  lemma WrittenStreamReadsBack(sep: bytes, room: Option<nat>, fault: Error, msgs: seq<bytes>)
    ensures var o := EmitAll(sep, Out([], room, fault, None), msgs);
            var p := Parse(sep, o.written, EOF);
            && p.msgs <= Accepted(msgs)
            && (p.tail.error == EOF || p.tail.error == UnexpectedEOF)
            && (p.tail.error == EOF <==> o.written == Encoding(sep, p.msgs))
            && (room.None? ==> p == Parsed(Accepted(msgs), Stopped(EOF)))
  {
    var o := Out([], room, fault, None);
    var all := Encoding(sep, Accepted(msgs));
    EncoderOutput(sep, o, msgs);
    var n := if Fits(o, all) then |all| else room.value;
    assert Push(o, all).written == all[..n];
    CutReadsBack(sep, Accepted(msgs), n);
    if room.None? {
      assert all[..n] == all;
      RoundTrip(sep, Accepted(msgs));
    }
  }

  class Sink {
    var written: bytes
    const room: Option<nat>
    const fault: Error

    constructor (room: Option<nat>, fault: Error)
      ensures written == [] && this.room == room && this.fault == fault
    {
      written := [];
      this.room, this.fault := room, fault;
    }

    method Write(b: bytes) returns (err: Option<Error>)
      requires Sound(Out(written, room, fault, None))
      modifies this
      ensures Out(written, room, fault, err) == Push(Out(old(written), room, fault, None), b)
    {
      if room.Some? && |written| + |b| > room.value {
        written := written + b[..room.value - |written|];
        err := Some(fault);
      } else {
        written := written + b;
        err := None;
      }
    }
  }

  class Encoder {
    const w: Sink
    const separator: Option<bytes>
    var err: Option<Error>

    constructor (w: Sink, separator: Option<bytes>)
      ensures this.w == w && this.separator == separator && err == None
    {
      this.w, this.separator, err := w, separator, None;
    }

    ghost function View(): Out
      reads this, w
    {
      Out(w.written, w.room, w.fault, err)
    }

    ghost function Sep(): bytes {
      if separator.Some? then separator.value else []
    }

    method Encode(msg: bytes) returns (r: Option<Error>)
      requires Sound(View())
      modifies this, w
      ensures View() == Emit(Sep(), old(View()), msg) && Sound(View())
      ensures r == err
    {
      if err.Some? {
        return err;
      }
      if |msg| > 255 {
        err := Some(MessageTooLong);
        return err;
      }
      ghost var o := View();
      assert o.written + [] == o.written;
      if separator.Some? {
        WriteBytes(separator.value);
      }
      assert View() == Push(o, Sep());
      WriteBytes([|msg|]);
      WriteBytes(msg);
      PushPush(o, Sep(), [|msg|]);
      PushPush(o, Sep() + [|msg|], msg);
      return err;
    }

    method WriteBytes(b: bytes)
      requires Sound(View())
      modifies this, w
      ensures View() == Push(old(View()), b) && Sound(View())
    {
      if err.Some? {
        return;
      }
      err := w.Write(b);
    }
  }

  // ---------------------------------------------------------------- decoding

  /** A client's view of a decoder: the messages still to come and how the stream ends. */
  function Take(q: Parsed): (Parsed, Result<bytes, Error>) {
    if q.msgs != [] then (q.(msgs := q.msgs[1..]), Ok(q.msgs[0]))
    else (Parsed([], Stopped(q.tail.error)), Err(q.tail.error))
  }

  function Peek(q: Parsed): Result<nat, Error> {
    if q.msgs != [] then Ok(|q.msgs[0]|)
    else if q.tail.Cut? then Ok(q.tail.announced)
    else Err(q.tail.error)
  }

  class Source {
    var rest: bytes
    const atEnd: Error

    constructor (content: bytes, atEnd: Error)
      ensures rest == content && this.atEnd == atEnd
    {
      rest, this.atEnd := content, atEnd;
    }

    /** Fills the whole buffer, or drains the source and says why it could not. */
    method ReadFull(b: array<byte>) returns (err: Option<Error>)
      modifies this, b
      ensures b.Length <= |old(rest)| ==>
                err == None && b[..] == old(rest)[..b.Length] && rest == old(rest)[b.Length..]
      ensures b.Length > |old(rest)| ==>
                rest == [] && err == Some(if old(rest) == [] then atEnd else MidFrame(atEnd))
    {
      var n := if b.Length <= |rest| then b.Length else |rest|;
      forall i | 0 <= i < n {
        b[i] := rest[i];
      }
      if n == b.Length {
        err := None;
      } else if n > 0 && atEnd == EOF {
        err := Some(UnexpectedEOF);
      } else {
        err := Some(atEnd);
      }
      rest := rest[n..];
    }
  }

  class Decoder {
    const r: Source
    const separator: bytes
    const prefixBuf: array<byte>
    var err: Option<Error>
    var pendingPrefix: bool
    var pendingLen: nat

    ghost predicate Valid()
      reads this
    {
      prefixBuf.Length == |separator| + 1
    }

    constructor (r: Source, separator: bytes)
      ensures Valid() && this.r == r && this.separator == separator && fresh(prefixBuf)
      ensures View() == Parse(separator, r.rest, r.atEnd)
    {
      this.r, this.separator := r, separator;
      prefixBuf := new byte[|separator| + 1];
      err, pendingPrefix, pendingLen := None, false, 0;
    }

    /** The queue this decoder stands for. */
    ghost function View(): Parsed
      reads this, r
    {
      if err.Some? then Parsed([], Stopped(err.value))
      else if pendingPrefix then AfterPrefix(separator, pendingLen, r.rest, r.atEnd)
      else Parse(separator, r.rest, r.atEnd)
    }

    method ReadPrefix() returns (e: Option<Error>)
      requires Valid()
      modifies this, r, prefixBuf
      ensures Valid() && View() == old(View())
      ensures e == err && (e.None? ==> pendingPrefix)
      ensures old(err).Some? ==> err == old(err) && r.rest == old(r.rest)
      ensures old(err).None? && old(pendingPrefix) ==>
                e.None? && err.None? && pendingLen == old(pendingLen) && r.rest == old(r.rest)
    {
      if err.Some? {
        return err;
      }
      if pendingPrefix {
        return None;
      }
      err := r.ReadFull(prefixBuf);
      if err.Some? {
        return err;
      }
      if |separator| > 0 {
        if prefixBuf[..|separator|] != separator {
          err := Some(SeparatorMismatch);
          return err;
        }
      }
      ghost var was := old(r.rest);
      assert prefixBuf[..|separator|] == was[..|separator|];
      assert prefixBuf[|separator|] == prefixBuf[..][|separator|] == was[|separator|];
      pendingPrefix := true;
      pendingLen := prefixBuf[|separator|];
      return err;
    }

    /** The read of a payload into a buffer of exactly the announced length. */
    method DecodeInto(b: array<byte>) returns (e: Option<Error>)
      requires Valid() && err.None? && pendingPrefix && b.Length == pendingLen
      requires b != prefixBuf
      modifies this, r, prefixBuf, b
      ensures Valid() && e == err
      ensures View() == Take(old(View())).0
      ensures Take(old(View())).1 == if e.None? then Ok(b[..]) else Err(e.value)
    {
      e := ReadPrefix();
      if e.Some? {
        return;
      }
      e := r.ReadFull(b);
      if e.Some? {
        if e == Some(EOF) {
          e := Some(UnexpectedEOF);
        }
        err := e;
        return;
      }
      pendingPrefix := false;
      pendingLen := 0;
    }

    method Decode() returns (m: Result<bytes, Error>)
      requires Valid()
      modifies this, r, prefixBuf
      ensures Valid()
      ensures (View(), m) == Take(old(View()))
      ensures m.Err? ==> err == Some(m.error)
      ensures old(err).Some? ==> r.rest == old(r.rest)
    {
      var e := ReadPrefix();
      if e.Some? {
        return Err(e.value);
      }
      var buf := new byte[pendingLen];
      e := DecodeInto(buf);
      if e.Some? {
        return Err(e.value);
      }
      return Ok(buf[..]);
    }

    /** Looking at the next length leaves the queue as it was. */
    method NextLen() returns (n: Result<nat, Error>)
      requires Valid()
      modifies this, r, prefixBuf
      ensures Valid() && View() == old(View())
      ensures n == Peek(old(View()))
      ensures old(err).Some? ==> r.rest == old(r.rest)
    {
      if err.Some? {
        return Err(err.value);
      }
      if !pendingPrefix {
        var e := ReadPrefix();
        if e.Some? {
          return Err(e.value);
        }
      }
      return Ok(pendingLen);
    }
  }

  // ---------------------------------------------------------------- scripts of calls

  datatype Call = CallNextLen | CallDecode

  datatype Outcome = Length(n: Result<nat, Error>) | Message(m: Result<bytes, Error>)

  /** What a queue answers to a script of calls. */
  function Answers(q: Parsed, calls: seq<Call>): seq<Outcome>
    decreases |calls|
  {
    if calls == [] then []
    else match calls[0]
      case CallNextLen => [Length(Peek(q))] + Answers(q, calls[1..])
      case CallDecode => [Message(Take(q).1)] + Answers(Take(q).0, calls[1..])
  }

  /** The messages among a script's answers, with the first error that ended them. */
  function Received(outcomes: seq<Outcome>): seq<Result<bytes, Error>> {
    if outcomes == [] then []
    else if outcomes[0].Message? then [outcomes[0].m] + Received(outcomes[1..])
    else Received(outcomes[1..])
  }

  /** A decoder driven by any script answers as its queue does. */
  method Drive(d: Decoder, calls: seq<Call>) returns (outcomes: seq<Outcome>)
    requires d.Valid()
    modifies d, d.r, d.prefixBuf
    ensures d.Valid() && outcomes == Answers(old(d.View()), calls)
  {
    outcomes := [];
    for i := 0 to |calls|
      invariant d.Valid()
      invariant outcomes + Answers(d.View(), calls[i..]) == Answers(old(d.View()), calls)
    {
      assert calls[i..][1..] == calls[i + 1..];
      match calls[i]
      case CallNextLen =>
        var n := d.NextLen();
        outcomes := outcomes + [Length(n)];
      case CallDecode =>
        var m := d.Decode();
        outcomes := outcomes + [Message(m)];
    }
    assert calls[|calls|..] == [];
  }

  function Decodes(calls: seq<Call>): nat {
    if calls == [] then 0
    else (if calls[0].CallDecode? then 1 else 0) + Decodes(calls[1..])
  }

  /** On an encoded list, any script receives the messages in order and then a clean end of
      stream for ever, however length queries are interleaved, and every length answered is the
      length of the message the next decode returns. */
  lemma {:induction false} ScriptsReceiveMessages(q: Parsed, calls: seq<Call>)
    requires q.tail == Stopped(EOF)
    ensures var got := Received(Answers(q, calls));
            |got| == Decodes(calls)
            && (forall j :: 0 <= j < |got| ==> got[j] == if j < |q.msgs| then Ok(q.msgs[j]) else Err(EOF))
    ensures forall i :: 0 <= i < |calls| && calls[i].CallNextLen? ==>
              var done := Decodes(calls[..i]);
              i < |Answers(q, calls)| &&
              Answers(q, calls)[i] == Length(if done < |q.msgs| then Ok(|q.msgs[done]|) else Err(EOF))
    decreases |calls|
  {
    if calls != [] {
      var next := if calls[0].CallDecode? then Take(q).0 else q;
      ScriptsReceiveMessages(next, calls[1..]);
      forall i | 0 < i < |calls|
        ensures calls[..i][1..] == calls[1..][..i - 1]
      {}
    }
  }
}
