/** The CBOR items the authenticator writes by hand, and a reader that finds where an item ends. */
module Cbor {
  import opened Basics

  /** An initial byte and its argument, for arguments below 256 (section 2.1 of RFC 7049). */
  function Head(major: nat, arg: byte): bytes
    requires major < 8
  {
    if arg < 24 then [major * 32 + arg] else [major * 32 + 24, arg]
  }

  function Int(i: int): bytes
    requires -256 <= i < 256
  {
    if i >= 0 then Head(0, i) else Head(1, -1 - i)
  }

  function Bytes(b: bytes): bytes
    requires |b| < 256
  {
    Head(2, |b|) + b
  }

  function TextString(b: bytes): bytes
    requires |b| < 256
  {
    Head(3, |b|) + b
  }

  const TRUE: bytes := [0xf5]

  function Concat(items: seq<bytes>): bytes {
    if items == [] then [] else items[0] + Concat(items[1..])
  }

  /** A map whose keys and values alternate in `items`. */
  function Map(items: seq<bytes>): bytes
    requires |items| % 2 == 0 && |items| < 48
  {
    Head(5, |items| / 2) + Concat(items)
  }

  lemma {:induction false} ConcatConcat(a: seq<bytes>, b: seq<bytes>)
    ensures Concat(a + b) == Concat(a) + Concat(b)
  {
    if a == [] {
      assert a + b == b;
    } else {
      ConcatConcat(a[1..], b);
      assert (a + b)[1..] == a[1..] + b;
      Assoc(a[0], Concat(a[1..]), Concat(b));
    }
  }

  lemma ConcatFive(s: seq<bytes>)
    requires |s| == 5
    ensures Concat(s) == s[0] + s[1] + s[2] + s[3] + s[4]
  {
    assert Concat(s[5..]) == [];
    assert s[4..][1..] == s[5..];
    assert Concat(s[4..]) == s[4];
    assert s[3..][1..] == s[4..];
    assert Concat(s[3..]) == s[3] + s[4];
    assert s[2..][1..] == s[3..];
    assert Concat(s[2..]) == s[2] + s[3] + s[4];
    assert s[1..][1..] == s[2..];
    assert Concat(s[1..]) == s[1] + s[2] + s[3] + s[4];
  }

  // ---------------------------------------------------------------- where an item ends

  /** The length of the first item of `b`, for definite lengths below 256. */
  function Skip(b: bytes): (r: Option<nat>)
    ensures r.Some? ==> 0 < r.value <= |b|
    decreases |b|, 0
  {
    if b == [] then None
    else
      var major, info := b[0] / 32, b[0] % 32;
      if info > 24 || (info == 24 && |b| < 2) then None
      else
        var head := if info == 24 then 2 else 1;
        var arg := if info == 24 then b[1] else info;
        if major == 0 || major == 1 || major == 7 then Some(head)
        else if major == 2 || major == 3 then if |b| < head + arg then None else Some(head + arg)
        else if major == 4 || major == 5 then
          match SkipAll(b[head..], if major == 5 then 2 * arg else arg)
          case None => None
          case Some(n) => Some(head + n)
        else None
  }

  function SkipAll(b: bytes, count: nat): (r: Option<nat>)
    ensures r.Some? ==> r.value <= |b|
    decreases |b|, 1, count
  {
    if count == 0 then Some(0)
    else
      match Skip(b)
      case None => None
      case Some(n) =>
        match SkipAll(b[n..], count - 1)
        case None => None
        case Some(m) => Some(n + m)
  }

  /** `a` is one item: whatever follows it, the reader stops exactly at its end. */
  ghost predicate IsItem(a: bytes) {
    forall rest: bytes :: Skip(a + rest) == Some(|a|)
  }

  lemma ItemAlone(a: bytes)
    requires IsItem(a)
    ensures Skip(a) == Some(|a|)
  {
    assert a + [] == a;
  }

  lemma IntIsItem(i: int)
    requires -256 <= i < 256
    ensures IsItem(Int(i))
  {}

  lemma StringsAreItems(b: bytes)
    requires |b| < 256
    ensures IsItem(Bytes(b)) && IsItem(TextString(b))
  {
    forall rest: bytes
      ensures Skip(Bytes(b) + rest) == Some(|Bytes(b)|) && Skip(TextString(b) + rest) == Some(|TextString(b)|)
    {
      assert Bytes(b) + rest == Head(2, |b|) + (b + rest);
      assert TextString(b) + rest == Head(3, |b|) + (b + rest);
    }
  }

  lemma TrueIsItem()
    ensures IsItem(TRUE)
  {}

  lemma {:induction false} ItemsSkip(items: seq<bytes>, rest: bytes)
    requires forall i :: 0 <= i < |items| ==> IsItem(items[i])
    ensures SkipAll(Concat(items) + rest, |items|) == Some(|Concat(items)|)
  {
    if items != [] {
      var more := Concat(items[1..]) + rest;
      Assoc(items[0], Concat(items[1..]), rest);
      assert Skip(items[0] + more) == Some(|items[0]|);
      assert (items[0] + more)[|items[0]|..] == more;
      ItemsSkip(items[1..], rest);
    }
  }

  lemma MapIsItem(items: seq<bytes>)
    requires |items| % 2 == 0 && |items| < 48
    requires forall i :: 0 <= i < |items| ==> IsItem(items[i])
    ensures IsItem(Map(items))
  {
    forall rest: bytes
      ensures Skip(Map(items) + rest) == Some(|Map(items)|)
    {
      ItemsSkip(items, rest);
      var b := Map(items) + rest;
      Assoc(Head(5, |items| / 2), Concat(items), rest);
      assert b[1..] == Concat(items) + rest;
    }
  }
}
