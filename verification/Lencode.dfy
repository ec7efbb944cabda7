/** The length-prefixed message coder: wire format, streaming encoder, streaming decoder. */
module Lencode {
  import opened Basics

  datatype Error = EOF | UnexpectedEOF | SeparatorMismatch | MessageTooLong | Fault(code: nat)

  // ---------------------------------------------------------------- wire format

  predicate Short(msgs: seq<bytes>) {
    forall i :: 0 <= i < |msgs| ==> |msgs[i]| <= 255
  }

  function Frame(sep: bytes, msg: bytes): bytes
    requires |msg| <= 255
  {
    sep + [|msg|] + msg
  }

  function Encoding(sep: bytes, msgs: seq<bytes>): bytes
    requires Short(msgs)
  {
    if msgs == [] then [] else Frame(sep, msgs[0]) + Encoding(sep, msgs[1..])
  }

  /** What follows the last complete frame of a stream: an error, or a frame whose
      prefix announced a length that the stream does not hold. */
  datatype Tail = Stopped(error: Error) | Cut(announced: nat, error: Error)

  datatype Parsed = Parsed(msgs: seq<bytes>, tail: Tail)

  function MidFrame(atEnd: Error): Error {
    if atEnd == EOF then UnexpectedEOF else atEnd
  }

  /** Reference reading of a whole stream whose end reports `atEnd`. */
  function Parse(sep: bytes, bs: bytes, atEnd: Error): Parsed
    decreases |bs|, 0
  {
    if bs == [] then Parsed([], Stopped(atEnd))
    else if |bs| < |sep| + 1 then Parsed([], Stopped(MidFrame(atEnd)))
    else if bs[..|sep|] != sep then Parsed([], Stopped(SeparatorMismatch))
    else AfterPrefix(sep, bs[|sep|], bs[|sep| + 1..], atEnd)
  }

  /** The same reading, just after a prefix announcing `len`. */
  function AfterPrefix(sep: bytes, len: nat, bs: bytes, atEnd: Error): Parsed
    decreases |bs|, 1
  {
    if |bs| < len then Parsed([], Cut(len, MidFrame(atEnd)))
    else
      var p := Parse(sep, bs[len..], atEnd);
      Parsed([bs[..len]] + p.msgs, p.tail)
  }

  lemma ParsePrefix(sep: bytes, len: byte, bs: bytes, atEnd: Error)
    ensures Parse(sep, sep + [len] + bs, atEnd) == AfterPrefix(sep, len, bs, atEnd)
  {
    var all := sep + [len] + bs;
    assert all[..|sep|] == sep;
    assert all[|sep| + 1..] == bs;
  }

  lemma ParseFrame(sep: bytes, msg: bytes, bs: bytes, atEnd: Error)
    requires |msg| <= 255
    ensures var p := Parse(sep, bs, atEnd);
            Parse(sep, Frame(sep, msg) + bs, atEnd) == Parsed([msg] + p.msgs, p.tail)
  {
    assert Frame(sep, msg) + bs == sep + [|msg|] + (msg + bs);
    ParsePrefix(sep, |msg|, msg + bs, atEnd);
    assert (msg + bs)[..|msg|] == msg;
    assert (msg + bs)[|msg|..] == bs;
  }

  lemma {:induction false} ParseAfterFrames(sep: bytes, msgs: seq<bytes>, bs: bytes, atEnd: Error)
    requires Short(msgs)
    ensures var p := Parse(sep, bs, atEnd);
            Parse(sep, Encoding(sep, msgs) + bs, atEnd) == Parsed(msgs + p.msgs, p.tail)
  {
    if msgs == [] {
      assert Encoding(sep, msgs) + bs == bs;
      assert msgs + Parse(sep, bs, atEnd).msgs == Parse(sep, bs, atEnd).msgs;
    } else {
      var rest := Encoding(sep, msgs[1..]) + bs;
      ParseAfterFrames(sep, msgs[1..], bs, atEnd);
      ParseFrame(sep, msgs[0], rest, atEnd);
      assert Encoding(sep, msgs) + bs == Frame(sep, msgs[0]) + rest;
      assert [msgs[0]] + (msgs[1..] + Parse(sep, bs, atEnd).msgs) == msgs + Parse(sep, bs, atEnd).msgs;
    }
  }

  lemma FirstFrame(sep: bytes, bs: bytes, atEnd: Error) returns (msg: bytes, next: bytes)
    requires Parse(sep, bs, atEnd).msgs != []
    ensures |msg| <= 255 && bs == Frame(sep, msg) + next
    ensures var q := Parse(sep, next, atEnd);
            Parse(sep, bs, atEnd) == Parsed([msg] + q.msgs, q.tail)
  {
    var len, body := bs[|sep|], bs[|sep| + 1..];
    msg, next := body[..len], body[len..];
    assert bs == sep + [len] + (msg + next);
  }

  lemma SplitCons(sep: bytes, msg: bytes, msgs: seq<bytes>, rem: bytes)
    requires |msg| <= 255 && Short(msgs)
    ensures Short([msg] + msgs)
    ensures Encoding(sep, [msg] + msgs) + rem == Frame(sep, msg) + (Encoding(sep, msgs) + rem)
  {
    assert ([msg] + msgs)[1..] == msgs;
  }

  /** Every stream is its complete frames followed by a remainder that starts no frame. */
  lemma {:induction false} ParseSplits(sep: bytes, bs: bytes, atEnd: Error) returns (rem: bytes)
    ensures var p := Parse(sep, bs, atEnd);
            Short(p.msgs) && bs == Encoding(sep, p.msgs) + rem
            && Parse(sep, rem, atEnd) == Parsed([], p.tail)
    decreases |bs|
  {
    var p := Parse(sep, bs, atEnd);
    if p.msgs == [] {
      rem := bs;
    } else {
      var msg, next := FirstFrame(sep, bs, atEnd);
      rem := ParseSplits(sep, next, atEnd);
      var q := Parse(sep, next, atEnd);
      SplitCons(sep, msg, q.msgs, rem);
    }
  }

  /** What the end of a parse says of a remainder that holds no complete frame: it is empty, or breaks
      off inside a prefix, or begins otherwise than the separator, or breaks off inside a payload. */
  lemma TailTells(sep: bytes, rem: bytes, atEnd: Error)
    requires Parse(sep, rem, atEnd).msgs == []
    ensures var inside := if atEnd == EOF then UnexpectedEOF else atEnd;
            Parse(sep, rem, atEnd).tail
            == if rem == [] then Stopped(atEnd)
               else if |rem| <= |sep| then Stopped(inside)
               else if !(sep <= rem) then Stopped(SeparatorMismatch)
               else Cut(rem[|sep|], inside)
    ensures |rem| > |sep| && sep <= rem ==> |rem| < |sep| + 1 + rem[|sep|]
  {}

  /** Encoding then decoding returns the messages and then a clean end of stream. */
  lemma RoundTrip(sep: bytes, msgs: seq<bytes>)
    requires Short(msgs)
    ensures Parse(sep, Encoding(sep, msgs), EOF) == Parsed(msgs, Stopped(EOF))
  {
    ParseAfterFrames(sep, msgs, [], EOF);
    assert Encoding(sep, msgs) + [] == Encoding(sep, msgs);
  }

  /** A stream reaches a clean end exactly when it is the encoding of what was decoded. */
  lemma CleanEndIffEncoding(sep: bytes, bs: bytes)
    ensures var p := Parse(sep, bs, EOF);
            Short(p.msgs) && (p.tail == Stopped(EOF) <==> bs == Encoding(sep, p.msgs))
  {
    var rem := ParseSplits(sep, bs, EOF);
    var p := Parse(sep, bs, EOF);
    if bs == Encoding(sep, p.msgs) {
      RoundTrip(sep, p.msgs);
    }
  }

  lemma EncodingInjective(sep: bytes, a: seq<bytes>, b: seq<bytes>)
    requires Short(a) && Short(b) && Encoding(sep, a) == Encoding(sep, b)
    ensures a == b
  {
    RoundTrip(sep, a);
    RoundTrip(sep, b);
  }

  /** How many whole frames fit in the first `n` bytes of an encoding. */
  function Complete(sep: bytes, msgs: seq<bytes>, n: nat): (k: nat)
    requires Short(msgs)
    ensures k <= |msgs|
    ensures |Encoding(sep, msgs[..k])| <= n
    ensures k < |msgs| ==> n < |Encoding(sep, msgs[..k + 1])|
  {
    if msgs == [] then 0
    else
      var f := |Frame(sep, msgs[0])|;
      if n < f then
        assert msgs[..1] == [msgs[0]];
        0
      else
        var k := Complete(sep, msgs[1..], n - f);
        assert msgs[..k + 1][1..] == msgs[1..][..k];
        assert k + 1 < |msgs| ==> msgs[..k + 2][1..] == msgs[1..][..k + 1];
        k + 1
  }

  lemma {:induction false} EncodingConcat(sep: bytes, a: seq<bytes>, b: seq<bytes>)
    requires Short(a) && Short(b)
    ensures Short(a + b) && Encoding(sep, a + b) == Encoding(sep, a) + Encoding(sep, b)
  {
    if a == [] {
      assert a + b == b;
    } else {
      EncodingConcat(sep, a[1..], b);
      assert (a + b)[1..] == a[1..] + b;
    }
  }

  /** A proper piece of one frame, at the end of a stream, is always reported as cut short. */
  lemma ParsePiece(sep: bytes, msg: bytes, n: nat)
    requires |msg| <= 255 && 0 < n < |Frame(sep, msg)|
    ensures var p := Parse(sep, Frame(sep, msg)[..n], EOF);
            p.msgs == [] && p.tail.error == UnexpectedEOF
  {
    var piece := Frame(sep, msg)[..n];
    if n > |sep| {
      assert piece == sep + [|msg|] + msg[..n - |sep| - 1];
      ParsePrefix(sep, |msg|, msg[..n - |sep| - 1], EOF);
    }
  }

  /** Cutting an encoding after `n` bytes yields exactly the complete frames; the end is clean
      only when the cut fell between two frames. */
  lemma CutStream(sep: bytes, msgs: seq<bytes>, n: nat)
    requires Short(msgs) && n <= |Encoding(sep, msgs)|
    ensures var k := Complete(sep, msgs, n);
            var p := Parse(sep, Encoding(sep, msgs)[..n], EOF);
            p.msgs == msgs[..k]
            && p.tail.error == (if n == |Encoding(sep, msgs[..k])| then EOF else UnexpectedEOF)
  {
    var k := Complete(sep, msgs, n);
    var whole := Encoding(sep, msgs[..k]);
    EncodingConcat(sep, msgs[..k], msgs[k..]);
    assert msgs[..k] + msgs[k..] == msgs;
    if n == |whole| {
      assert Encoding(sep, msgs)[..n] == whole;
      RoundTrip(sep, msgs[..k]);
    } else {
      assert k < |msgs|;
      EncodingConcat(sep, msgs[..k], [msgs[k]]);
      assert msgs[..k] + [msgs[k]] == msgs[..k + 1];
      var piece := Frame(sep, msgs[k])[..n - |whole|];
      assert Encoding(sep, msgs)[..n] == whole + piece;
      ParsePiece(sep, msgs[k], n - |whole|);
      ParseAfterFrames(sep, msgs[..k], piece, EOF);
    }
  }

  lemma CutIsWhole(sep: bytes, msgs: seq<bytes>, n: nat, k: nat)
    requires Short(msgs) && n <= |Encoding(sep, msgs)| && k <= |msgs| && |Encoding(sep, msgs[..k])| <= n
    ensures Encoding(sep, msgs)[..n] == Encoding(sep, msgs[..k]) <==> n == |Encoding(sep, msgs[..k])|
  {
    EncodingConcat(sep, msgs[..k], msgs[k..]);
    assert msgs[..k] + msgs[k..] == msgs;
  }

  lemma CutReadsBack(sep: bytes, msgs: seq<bytes>, n: nat)
    requires Short(msgs) && n <= |Encoding(sep, msgs)|
    ensures var bs := Encoding(sep, msgs)[..n];
            var p := Parse(sep, bs, EOF);
            && p.msgs <= msgs
            && (p.tail.error == EOF || p.tail.error == UnexpectedEOF)
            && (p.tail.error == EOF <==> bs == Encoding(sep, p.msgs))
  {
    CutStream(sep, msgs, n);
    CutIsWhole(sep, msgs, n, Complete(sep, msgs, n));
  }
}
