/** Native Messaging: length-prefixed frames and the request loop over them. */
module NativeMsg {
  import opened Basics
  import opened Lencode
  import opened Coder

  const MAX_MESSAGE_SIZE := 1024 * 1024

  datatype ReadError = Prefix(e: Error) | EmptyMessage | TooLarge | Payload(e: Error)

  // ---------------------------------------------------------------- little-endian lengths

  function Little(n: nat, width: nat): (r: bytes)
    ensures |r| == width
  {
    if width == 0 then [] else [n % 256] + Little(n / 256, width - 1)
  }

  function LittleValue(b: bytes): nat {
    if b == [] then 0 else b[0] + 256 * LittleValue(b[1..])
  }

  lemma LowDigit(d: byte, v: nat)
    ensures (d + 256 * v) % 256 == d && (d + 256 * v) / 256 == v
  {}

  lemma {:induction false} LittleOfValue(b: bytes)
    ensures Little(LittleValue(b), |b|) == b
  {
    if b != [] {
      LittleOfValue(b[1..]);
      LowDigit(b[0], LittleValue(b[1..]));
    }
  }

  lemma LittleBytes(n: nat)
    ensures Little(n, 4) == [n % 256, n / 256 % 256, n / 256 / 256 % 256, n / 256 / 256 / 256 % 256]
  {
    assert Little(n / 256 / 256 / 256, 1) == [n / 256 / 256 / 256 % 256];
    assert Little(n / 256 / 256, 2) == [n / 256 / 256 % 256, n / 256 / 256 / 256 % 256];
    assert Little(n / 256, 3) == [n / 256 % 256, n / 256 / 256 % 256, n / 256 / 256 / 256 % 256];
  }

  lemma ValueOfLittle(n: nat)
    requires n < 0x1_0000_0000
    ensures LittleValue(Little(n, 4)) == n
  {
    var a, b, c, d := n % 256, n / 256 % 256, n / 256 / 256 % 256, n / 256 / 256 / 256 % 256;
    assert Little(n / 256 / 256 / 256, 1) == [d];
    assert Little(n / 256 / 256, 2) == [c, d];
    assert Little(n / 256, 3) == [b, c, d];
    assert Little(n, 4) == [a, b, c, d];
    assert [a, b, c, d][1..] == [b, c, d] && [b, c, d][1..] == [c, d] && [c, d][1..] == [d];
    assert LittleValue([d]) == d;
    assert LittleValue([c, d]) == c + 256 * d;
    assert LittleValue([b, c, d]) == b + 256 * (c + 256 * d);
  }

  // ---------------------------------------------------------------- frames

  function Wrap(p: bytes): bytes {
    Little(|p|, 4) + p
  }

  function WrapAll(ps: seq<bytes>): bytes {
    if ps == [] then [] else Wrap(ps[0]) + WrapAll(ps[1..])
  }

  predicate Fit(p: bytes) { 1 <= |p| <= 0x10_0000 }

  /** One read: the payload or an error, and what is left of the stream. */
  function ReadFrame(bs: bytes, atEnd: Error): (Result<bytes, ReadError>, bytes) {
    if |bs| < 4 then (Err(Prefix(if bs == [] then atEnd else MidFrame(atEnd))), [])
    else
      var n, rest := LittleValue(bs[..4]), bs[4..];
      if n == 0 then (Err(EmptyMessage), rest)
      else if n > MAX_MESSAGE_SIZE then (Err(TooLarge), rest)
      else if |rest| < n then (Err(Payload(if rest == [] then atEnd else MidFrame(atEnd))), [])
      else (Ok(rest[..n]), rest[n..])
  }

  /** The well-formed frames at the start of a stream. */
  function Requests(bs: bytes, atEnd: Error): seq<bytes>
    decreases |bs|
  {
    match ReadFrame(bs, atEnd)
    case (Err(_), _) => []
    case (Ok(p), rest) => [p] + Requests(rest, atEnd)
  }

  method Read(r: Source) returns (m: Result<bytes, ReadError>)
    modifies r
    ensures (m, r.rest) == ReadFrame(old(r.rest), r.atEnd)
  {
    ghost var bs := r.rest;
    var prefix := new byte[4];
    var err := r.ReadFull(prefix);
    if err.Some? {
      return Err(Prefix(err.value));
    }
    var length := LittleValue(prefix[..]);
    assert prefix[..] == bs[..4];
    if length == 0 {
      return Err(EmptyMessage);
    }
    if length > MAX_MESSAGE_SIZE {
      return Err(TooLarge);
    }
    var msg := new byte[length];
    err := r.ReadFull(msg);
    if err.Some? {
      return Err(Payload(err.value));
    }
    return Ok(msg[..]);
  }

  /** `data` is the message's JSON. Nothing is written when it is too large. */
  method Write(w: Sink, data: bytes) returns (ok: bool)
    requires Sound(Out(w.written, w.room, w.fault, None))
    modifies w
    ensures var o := Out(old(w.written), w.room, w.fault, None);
            var t := if |data| > MAX_MESSAGE_SIZE then o else Push(o, Wrap(data));
            w.written == t.written && Sound(Out(w.written, w.room, w.fault, None))
            && (ok <==> |data| <= MAX_MESSAGE_SIZE && t.err.None?)
  {
    if |data| > MAX_MESSAGE_SIZE {
      return false;
    }
    ghost var o := Out(w.written, w.room, w.fault, None);
    PushPush(o, Little(|data|, 4), data);
    var err := w.Write(Little(|data|, 4));
    if err.Some? {
      return false;
    }
    err := w.Write(data);
    return err.None?;
  }

  // ---------------------------------------------------------------- round trips

  /** A written payload is read back exactly when it is not empty: an empty one is written but
      refused by the reader. */
  lemma WrittenReadsBackIff(p: bytes, rest: bytes, atEnd: Error)
    requires |p| <= 0x10_0000
    ensures Wrap(p)[4..] == p
    ensures Wrap(p)[..4] == [|p| % 256, |p| / 256 % 256, |p| / 256 / 256 % 256, |p| / 256 / 256 / 256 % 256]
    ensures ReadFrame(Wrap(p) + rest, atEnd) == (Ok(p), rest) <==> 1 <= |p|
  {
    ValueOfLittle(|p|);
    LittleBytes(|p|);
    var bs := Wrap(p) + rest;
    assert bs[..4] == Little(|p|, 4);
    assert bs[4..] == p + rest;
  }

  lemma {:induction false} FramesRoundTrip(ps: seq<bytes>, atEnd: Error)
    requires forall i :: 0 <= i < |ps| ==> Fit(ps[i])
    ensures Requests(WrapAll(ps), atEnd) == ps
  {
    if ps != [] {
      assert Fit(ps[0]);
      WrittenReadsBackIff(ps[0], WrapAll(ps[1..]), atEnd);
      FramesRoundTrip(ps[1..], atEnd);
    }
  }

  lemma FirstRequest(bs: bytes, atEnd: Error)
    requires ReadFrame(bs, atEnd).0.Ok?
    ensures var (m, rest) := ReadFrame(bs, atEnd); Fit(m.value) && bs == Wrap(m.value) + rest
  {
    LittleOfValue(bs[..4]);
    var n := LittleValue(bs[..4]);
    assert bs == bs[..4] + (bs[4..][..n] + bs[4..][n..]);
  }

  lemma CleanEndIffNothingLeft(rem: bytes)
    ensures ReadFrame(rem, EOF).0 == Err(Prefix(EOF)) <==> rem == []
  {}

  /** Any stream is its well-formed frames followed by something that is refused; the refusal is a
      clean end exactly when nothing follows. */
  lemma {:induction false} StreamIsRequests(bs: bytes) returns (rem: bytes)
    ensures var reqs := Requests(bs, EOF);
            && bs == WrapAll(reqs) + rem
            && (forall i :: 0 <= i < |reqs| ==> Fit(reqs[i]))
            && ReadFrame(rem, EOF).0.Err?
            && (ReadFrame(rem, EOF).0 == Err(Prefix(EOF)) <==> rem == [])
    decreases |bs|
  {
    var (m, rest) := ReadFrame(bs, EOF);
    if m.Err? {
      rem := bs;
      CleanEndIffNothingLeft(bs);
    } else {
      FirstRequest(bs, EOF);
      rem := StreamIsRequests(rest);
      var more := Requests(rest, EOF);
      assert Requests(bs, EOF) == [m.value] + more;
      assert ([m.value] + more)[1..] == more;
      assert bs == Wrap(m.value) + WrapAll(more) + rem;
    }
  }

  // ---------------------------------------------------------------- the loop

  /** What the loop leaves behind for a list of requests: it stops at the first response that is
      too large or that cannot be written. */
  function Serve<S>(handle: (S, bytes) -> (S, bytes), s: S, reqs: seq<bytes>, o: Out): (S, Out)
    requires Sound(o)
    decreases |reqs|
  {
    if reqs == [] then (s, o)
    else
      var (s', response) := handle(s, reqs[0]);
      if |response| > MAX_MESSAGE_SIZE then (s', o)
      else
        var o' := Push(o, Wrap(response));
        if o'.err.Some? then (s', o') else Serve(handle, s', reqs[1..], o')
  }

  /** What has reached the writer. */
  ghost function Output(w: Sink): Out
    reads w
  {
    Out(w.written, w.room, w.fault, None)
  }

  method RunNativeMessaging<S>(stdin: Source, stdout: Sink, handle: (S, bytes) -> (S, bytes), initial: S) returns (s: S)
    requires Sound(Output(stdout))
    modifies stdin, stdout
    ensures var (t, o) := Serve(handle, initial, Requests(old(stdin.rest), stdin.atEnd), old(Output(stdout)));
            s == t && stdout.written == o.written
  {
    s := initial;
    while true
      invariant Sound(Output(stdout))
      invariant Serve(handle, s, Requests(stdin.rest, stdin.atEnd), Output(stdout))
             == Serve(handle, initial, Requests(old(stdin.rest), stdin.atEnd), old(Output(stdout)))
      decreases |stdin.rest|
    {
      ghost var reqs := Requests(stdin.rest, stdin.atEnd);
      ghost var o := Output(stdout);
      var msg := Read(stdin);
      if msg.Err? {
        return;
      }
      assert reqs == [msg.value] + Requests(stdin.rest, stdin.atEnd);
      assert reqs[1..] == Requests(stdin.rest, stdin.atEnd);
      var (s', response) := handle(s, msg.value);
      s := s';
      var ok := Write(stdout, response);
      if !ok {
        return;
      }
    }
  }

  /** The responses to a list of requests, up to the first that is too large. */
  function Responses<S>(handle: (S, bytes) -> (S, bytes), s: S, reqs: seq<bytes>): seq<bytes>
    decreases |reqs|
  {
    if reqs == [] then []
    else
      var (s', response) := handle(s, reqs[0]);
      if |response| > MAX_MESSAGE_SIZE then [] else [response] + Responses(handle, s', reqs[1..])
  }

  /** The handler's state after serving these requests. */
  function StateAfter<S>(handle: (S, bytes) -> (S, bytes), s: S, reqs: seq<bytes>): S {
    if reqs == [] then s else handle(StateAfter(handle, s, reqs[..|reqs| - 1]), reqs[|reqs| - 1]).0
  }

  /** Each response answers its own request, in the state that the requests before it left; the first
      one missing is too large. */
  lemma {:induction false} ResponseAt<S>(handle: (S, bytes) -> (S, bytes), s: S, reqs: seq<bytes>, i: nat)
    requires i <= |Responses(handle, s, reqs)|
    ensures |Responses(handle, s, reqs)| <= |reqs|
    ensures i < |Responses(handle, s, reqs)| ==>
              Responses(handle, s, reqs)[i] == handle(StateAfter(handle, s, reqs[..i]), reqs[i]).1
    ensures i == |Responses(handle, s, reqs)| < |reqs| ==>
              |handle(StateAfter(handle, s, reqs[..i]), reqs[i]).1| > 0x10_0000
    decreases |reqs|
  {
    if reqs != [] {
      var (s', response) := handle(s, reqs[0]);
      if |response| <= MAX_MESSAGE_SIZE {
        if i > 0 {
          ResponseAt(handle, s', reqs[1..], i - 1);
          StateAfterFirst(handle, s, reqs[..i]);
          assert reqs[..i][1..] == reqs[1..][..i - 1];
        } else {
          ResponseAt(handle, s', reqs[1..], 0);
        }
      }
    }
  }

  lemma {:induction false} StateAfterFirst<S>(handle: (S, bytes) -> (S, bytes), s: S, reqs: seq<bytes>)
    requires reqs != []
    ensures StateAfter(handle, s, reqs) == StateAfter(handle, handle(s, reqs[0]).0, reqs[1..])
    decreases |reqs|
  {
    if |reqs| > 1 {
      StateAfterFirst(handle, s, reqs[..|reqs| - 1]);
      assert reqs[..|reqs| - 1][1..] == reqs[1..][..|reqs| - 2];
    } else {
      assert reqs[..0] == [] && reqs[1..] == [];
    }
  }

  /** Every response met while serving these requests has between 1 and 2^20 bytes. */
  predicate Fitting<S>(handle: (S, bytes) -> (S, bytes), s: S, reqs: seq<bytes>)
    decreases |reqs|
  {
    reqs == [] || (Fit(handle(s, reqs[0]).1) && Fitting(handle, handle(s, reqs[0]).0, reqs[1..]))
  }

  /** What a reader makes of written messages: it stops at an empty one. */
  function UntilEmpty(ps: seq<bytes>): (r: seq<bytes>)
    ensures r <= ps
  {
    if ps == [] || ps[0] == [] then [] else [ps[0]] + UntilEmpty(ps[1..])
  }

  predicate Small(ps: seq<bytes>) {
    forall i :: 0 <= i < |ps| ==> |ps[i]| <= MAX_MESSAGE_SIZE
  }

  lemma {:induction false} ServeWritesResponses<S>(handle: (S, bytes) -> (S, bytes), s: S, reqs: seq<bytes>, o: Out)
    requires Sound(o) && o.err.None?
    ensures Serve(handle, s, reqs, o).1 == Push(o, WrapAll(Responses(handle, s, reqs)))
    decreases |reqs|
  {
    if reqs == [] {
      assert o.written + [] == o.written;
    } else {
      var (s', response) := handle(s, reqs[0]);
      if |response| > MAX_MESSAGE_SIZE {
        assert o.written + [] == o.written;
      } else {
        var o', rest := Push(o, Wrap(response)), Responses(handle, s', reqs[1..]);
        assert ([response] + rest)[1..] == rest;
        PushPush(o, Wrap(response), WrapAll(rest));
        if o'.err.None? {
          ServeWritesResponses(handle, s', reqs[1..], o');
        }
      }
    }
  }

  lemma {:induction false} ResponsesCount<S>(handle: (S, bytes) -> (S, bytes), s: S, reqs: seq<bytes>)
    ensures var rs := Responses(handle, s, reqs);
            && Small(rs) && |UntilEmpty(rs)| <= |rs| <= |reqs|
            && (|UntilEmpty(rs)| == |reqs| <==> Fitting(handle, s, reqs))
            && (Fitting(handle, s, reqs) ==> UntilEmpty(rs) == rs)
    decreases |reqs|
  {
    if reqs != [] {
      var (s', response) := handle(s, reqs[0]);
      var rest := Responses(handle, s', reqs[1..]);
      ResponsesCount(handle, s', reqs[1..]);
      assert ([response] + rest)[1..] == rest;
    }
  }

  /** What a reader takes from the first `n` bytes of written messages. */
  ghost predicate ReadsWhole(ps: seq<bytes>, n: nat, got: seq<bytes>) {
    && got <= UntilEmpty(ps) && |WrapAll(got)| <= n
    && (|got| < |UntilEmpty(ps)| ==> n < |WrapAll(ps[..|got| + 1])|)
  }

  /** Written messages read back up to the first empty one, wherever the writing was cut off: the
      reader sees whole messages only, and all that got through whole. */
  lemma {:induction false} CutReadsBack(ps: seq<bytes>, n: nat)
    requires Small(ps) && n <= |WrapAll(ps)|
    ensures ReadsWhole(ps, n, Requests(WrapAll(ps)[..n], EOF))
    decreases |ps|
  {
    if ps != [] {
      var p, rest := ps[0], ps[1..];
      assert |p| <= MAX_MESSAGE_SIZE;
      if n < |Wrap(p)| {
        CutFrame(p, n, WrapAll(rest));
        assert ps[..1][1..] == [] && WrapAll(ps[..1]) == Wrap(p) + [];
      } else {
        var m := n - |Wrap(p)|;
        assert WrapAll(ps)[..n] == Wrap(p) + WrapAll(rest)[..m];
        WrittenReadsBackIff(p, WrapAll(rest)[..m], EOF);
        if p == [] {
          EmptyStops(WrapAll(ps)[..n], WrapAll(rest)[..m]);
        } else {
          CutReadsBack(rest, m);
          OneMoreWhole(ps, m, Requests(WrapAll(rest)[..m], EOF));
        }
      }
    }
  }

  lemma OneMoreWhole(ps: seq<bytes>, m: nat, got: seq<bytes>)
    requires ps != [] && ps[0] != [] && ReadsWhole(ps[1..], m, got)
    ensures ReadsWhole(ps, m + |Wrap(ps[0])|, [ps[0]] + got)
  {
    var more := [ps[0]] + got;
    assert more[1..] == got;
    if |got| < |UntilEmpty(ps[1..])| {
      assert ps[..|more| + 1][1..] == ps[1..][..|got| + 1];
    }
  }

  /** A frame that is cut short is not read. */
  lemma CutFrame(p: bytes, n: nat, rest: bytes)
    requires |p| <= MAX_MESSAGE_SIZE && n < |Wrap(p)|
    ensures ReadFrame((Wrap(p) + rest)[..n], EOF).0.Err?
  {
    ValueOfLittle(|p|);
    if n >= 4 {
      assert (Wrap(p) + rest)[..n][..4] == Little(|p|, 4);
    }
  }

  lemma EmptyStops(bs: bytes, rest: bytes)
    requires bs == Wrap([]) + rest
    ensures ReadFrame(bs, EOF).0.Err?
  {
    ValueOfLittle(0);
    assert bs[..4] == Little(0, 4);
  }

  /** On any input at all, with a writer that never fails: the output is the responses in order, up to
      the first that is too large. A browser reads them back up to the first empty one, and sees one
      for each well-formed request if and only if every response met has between 1 and 2^20 bytes. */
  lemma BrowserSeesResponses<S>(handle: (S, bytes) -> (S, bytes), s: S, input: bytes)
    ensures var reqs := Requests(input, EOF);
            var out := Serve(handle, s, reqs, Out([], None, EOF, None)).1.written;
            && out == WrapAll(Responses(handle, s, reqs))
            && Requests(out, EOF) == UntilEmpty(Responses(handle, s, reqs))
            && (|Requests(out, EOF)| == |reqs| <==> Fitting(handle, s, reqs))
            && (Fitting(handle, s, reqs) ==> Requests(out, EOF) == Responses(handle, s, reqs))
  {
    var reqs := Requests(input, EOF);
    var rs := Responses(handle, s, reqs);
    ServeWritesResponses(handle, s, reqs, Out([], None, EOF, None));
    assert [] + WrapAll(rs) == WrapAll(rs);
    ResponsesCount(handle, s, reqs);
    WholeReadsBack(rs);
  }

  lemma WholeReadsBack(ps: seq<bytes>)
    requires Small(ps)
    ensures Requests(WrapAll(ps), EOF) == UntilEmpty(ps)
  {
    var n := |WrapAll(ps)|;
    assert WrapAll(ps)[..n] == WrapAll(ps);
    CutReadsBack(ps, n);
    var got := Requests(WrapAll(ps), EOF);
    var k := if |got| < |UntilEmpty(ps)| then |got| + 1 else 0;
    WrapAllSplits(ps[..k], ps[k..]);
    assert ps[..k] + ps[k..] == ps;
  }

  lemma {:induction false} WrapAllSplits(a: seq<bytes>, b: seq<bytes>)
    ensures WrapAll(a + b) == WrapAll(a) + WrapAll(b)
  {
    if a == [] {
      assert a + b == b;
    } else {
      assert (a + b)[1..] == a[1..] + b;
      WrapAllSplits(a[1..], b);
    }
  }

  function Cut(b: bytes, room: nat): bytes {
    if |b| <= room then b else b[..room]
  }

  lemma PushCuts(b: bytes, room: nat, fault: Error)
    ensures Push(Out([], Some(room), fault, None), b).written == Cut(b, room)
  {
    assert [] + b == b;
  }

  /** With a writer that fails after `room` bytes: the output is the same, cut there, and a browser
      still reads whole responses in order, all those that got through whole. */
  lemma BrowserSeesCutResponses<S>(handle: (S, bytes) -> (S, bytes), s: S, input: bytes, room: nat, fault: Error)
    ensures var reqs := Requests(input, EOF);
            var rs := Responses(handle, s, reqs);
            var out := Serve(handle, s, reqs, Out([], Some(room), fault, None)).1.written;
            var got := Requests(out, EOF);
            && out == Cut(WrapAll(rs), room)
            && got <= UntilEmpty(rs)
            && (|got| < |UntilEmpty(rs)| ==> |out| < |WrapAll(rs[..|got| + 1])|)
  {
    var reqs := Requests(input, EOF);
    var rs := Responses(handle, s, reqs);
    ServeWritesResponses(handle, s, reqs, Out([], Some(room), fault, None));
    PushCuts(WrapAll(rs), room, fault);
    ResponsesCount(handle, s, reqs);
    CutReadsBack(rs, |Cut(WrapAll(rs), room)|);
    assert WrapAll(rs)[..|Cut(WrapAll(rs), room)|] == Cut(WrapAll(rs), room);
  }
}
