/** The TPM backend's key handles: three frames holding a wrapped key pair and a seed. */
module Tpm {
  import opened Basics
  import opened Lencode
  import opened Coder

  const SEPARATOR: bytes := Text("TPM")
  const SEED_SIZE := 20

  datatype Keys = Keys(private: bytes, public: bytes, seed: bytes) {
    function Blobs(): seq<bytes> { [private, public, seed] }
  }

  /** The `unique` point of the primary key template. */
  datatype Template = Template(x: bytes, y: bytes)

  /** The hardware and the hash functions this backend calls. `sign` is the outcome of creating
      the primary key, loading the child under it and signing with it. */
  datatype Device = Device(
    hkdf: (bytes, bytes) -> bytes,
    hmac: (bytes, bytes) -> bytes,
    sign: (Template, bytes, bytes, bytes) -> Option<bytes>)
  {
    ghost predicate Lawful() {
      forall seed, info :: |hkdf(seed, info)| == 64
    }
  }

  function PrimaryTemplate(dev: Device, seed: bytes, applicationParam: bytes): (t: Template)
    requires dev.Lawful()
    ensures |t.x| == 32 && |t.y| == 32
  {
    var stream := dev.hkdf(seed, Text("tpm-fido-application-key") + applicationParam);
    Template(stream[..32], stream[32..])
  }

  /** The bytes `RegisterKey` returns: its encoder's errors are ignored. */
  function HandleOf(k: Keys): bytes {
    EmitAll(SEPARATOR, Out([], None, EOF, None), k.Blobs()).written
  }

  /** The handle that carries all of `k`. */
  ghost predicate Carries(handle: bytes, k: Keys) {
    Short(k.Blobs()) && handle == Encoding(SEPARATOR, k.Blobs())
  }

  /** What `SignASN1` reads: exactly three frames and then the end. */
  function Opened(handle: bytes): Option<Keys> {
    var p := Parse(SEPARATOR, handle, EOF);
    if |p.msgs| == 3 && p.tail == Stopped(EOF) then Some(Keys(p.msgs[0], p.msgs[1], p.msgs[2])) else None
  }

  /** What `DeriveCredRandom` reads: the third of at least three frames. */
  function SeedIn(handle: bytes): Option<bytes> {
    var p := Parse(SEPARATOR, handle, EOF);
    if |p.msgs| >= 3 then Some(p.msgs[2]) else None
  }

  function Signature(dev: Device, handle: bytes, applicationParam: bytes, digest: bytes): Option<bytes>
    requires dev.Lawful()
  {
    match Opened(handle)
    case None => None
    case Some(k) => dev.sign(PrimaryTemplate(dev, k.seed, applicationParam), k.public, k.private, digest)
  }

  function CredRandom(dev: Device, handle: bytes): Option<bytes> {
    match SeedIn(handle)
    case None => None
    case Some(seed) => Some(dev.hmac(seed, Text("credential-random")))
  }

  lemma EmitThree(sep: bytes, o: Out, a: bytes, b: bytes, c: bytes)
    requires Sound(o)
    ensures EmitAll(sep, o, [a, b, c]) == Emit(sep, Emit(sep, Emit(sep, o, a), b), c)
  {
    var o1 := Emit(sep, o, a);
    var o2 := Emit(sep, o1, b);
    assert [a, b, c][1..] == [b, c] && [b, c][1..] == [c] && [c][1..] == [];
    assert EmitAll(sep, o2, [c]) == EmitAll(sep, Emit(sep, o2, c), []);
    assert EmitAll(sep, o1, [b, c]) == EmitAll(sep, o2, [c]);
  }

  // ---------------------------------------------------------------- operations

  /** Creating a child key may fail (`created`), and so may loading it back (`point`). */
  method RegisterKey(seed: bytes, created: Option<(bytes, bytes)>, point: Option<(nat, nat)>)
    returns (r: Option<(bytes, nat, nat)>)
    requires |seed| == SEED_SIZE
    ensures r.Some? <==> created.Some? && point.Some?
    ensures r.Some? ==> r.value.0 == HandleOf(Keys(created.value.0, created.value.1, seed))
                        && (r.value.1, r.value.2) == point.value
  {
    if created.None? {
      return None;
    }
    var (private, public) := created.value;
    var out := new Sink(None, EOF);
    var enc := new Encoder(out, Some(SEPARATOR));
    var _ := enc.Encode(private);
    var _ := enc.Encode(public);
    var _ := enc.Encode(seed);
    if point.None? {
      return None;
    }
    EmitThree(SEPARATOR, Out([], None, EOF, None), private, public, seed);
    return Some((out.written, point.value.0, point.value.1));
  }

  method SignASN1(dev: Device, keyHandle: bytes, applicationParam: bytes, digest: bytes)
    returns (sig: Option<bytes>)
    requires dev.Lawful()
    ensures sig == Signature(dev, keyHandle, applicationParam, digest)
  {
    var src := new Source(keyHandle, EOF);
    var dec := new Decoder(src, SEPARATOR);
    var private := dec.Decode();
    if private.Err? { return None; }
    var public := dec.Decode();
    if public.Err? { return None; }
    var seed := dec.Decode();
    if seed.Err? { return None; }
    var end := dec.Decode();
    if end != Err(EOF) { return None; }
    EndOfHandle(keyHandle);
    return dev.sign(PrimaryTemplate(dev, seed.value, applicationParam), public.value, private.value, digest);
  }

  method DeriveCredRandom(dev: Device, keyHandle: bytes) returns (r: Option<bytes>)
    ensures r == CredRandom(dev, keyHandle)
  {
    var src := new Source(keyHandle, EOF);
    var dec := new Decoder(src, SEPARATOR);
    var private := dec.Decode();
    if private.Err? { return None; }
    var public := dec.Decode();
    if public.Err? { return None; }
    var seed := dec.Decode();
    if seed.Err? { return None; }
    return Some(dev.hmac(seed.value, Text("credential-random")));
  }

  // ---------------------------------------------------------------- properties

  lemma {:induction false} EndOfStream(sep: bytes, bs: bytes)
    ensures var p := Parse(sep, bs, EOF);
            p.tail.error == EOF ==> p.tail == Stopped(EOF)
    decreases |bs|
  {
    if Parse(sep, bs, EOF).msgs != [] {
      var msg, next := FirstFrame(sep, bs, EOF);
      EndOfStream(sep, next);
    }
  }

  lemma EndOfHandle(handle: bytes)
    ensures var p := Parse(SEPARATOR, handle, EOF);
            p.tail.error == EOF ==> p.tail == Stopped(EOF)
  {
    EndOfStream(SEPARATOR, handle);
  }

  /** The handles that signing accepts are exactly the encodings of triples, each of one triple. */
  lemma OpenedIffCarries(handle: bytes, k: Keys)
    ensures Opened(handle) == Some(k) <==> Carries(handle, k)
    ensures Carries(handle, k) ==> SeedIn(handle) == Some(k.seed)
  {
    CleanEndIffEncoding(SEPARATOR, handle);
    if Carries(handle, k) {
      RoundTrip(SEPARATOR, k.Blobs());
    }
    if Opened(handle) == Some(k) {
      assert Parse(SEPARATOR, handle, EOF).msgs == k.Blobs();
    }
  }

  ghost predicate StartsWith(handle: bytes, k: Keys, extra: bytes) {
    Short(k.Blobs()) && handle == Encoding(SEPARATOR, k.Blobs()) + extra
  }

  /** A seed can be derived exactly from the handles that start with a complete triple; unlike
      signing, derivation does not look at what follows it. */
  lemma SeedIffTriplePrefix(handle: bytes, seed: bytes)
    ensures SeedIn(handle) == Some(seed) <==> exists k, extra :: StartsWith(handle, k, extra) && k.seed == seed
  {
    var p := Parse(SEPARATOR, handle, EOF);
    if |p.msgs| >= 3 {
      var rem := ParseSplits(SEPARATOR, handle, EOF);
      var k := Keys(p.msgs[0], p.msgs[1], p.msgs[2]);
      EncodingConcat(SEPARATOR, p.msgs[..3], p.msgs[3..]);
      assert p.msgs[..3] + p.msgs[3..] == p.msgs;
      assert p.msgs[..3] == k.Blobs();
      assert StartsWith(handle, k, Encoding(SEPARATOR, p.msgs[3..]) + rem);
    }
    forall k, extra | StartsWith(handle, k, extra)
      ensures SeedIn(handle) == Some(k.seed)
    {
      ParseAfterFrames(SEPARATOR, k.Blobs(), extra, EOF);
    }
  }

  /** A handle made by registration opens to exactly what was registered, or, when a blob was too
      long for its frame, is refused by signing and by derivation alike. */
  lemma RegisteredHandle(k: Keys)
    requires |k.seed| == SEED_SIZE
    ensures if |k.private| <= 255 && |k.public| <= 255
            then Opened(HandleOf(k)) == Some(k) && SeedIn(HandleOf(k)) == Some(k.seed)
            else Opened(HandleOf(k)) == None && SeedIn(HandleOf(k)) == None
  {
    WrittenStreamReadsBack(SEPARATOR, None, EOF, k.Blobs());
    assert k.Blobs()[0] == k.private && k.Blobs()[1] == k.public && k.Blobs()[2] == k.seed;
    assert Short(k.Blobs()) <==> |k.private| <= 255 && |k.public| <= 255;
  }

  /** A complete handle byte by byte: the letters TPM, a length and the field, three times. */
  lemma HandleBytes(k: Keys)
    requires Short(k.Blobs())
    ensures |k.private| <= 255 && |k.public| <= 255 && |k.seed| <= 255
    ensures HandleOf(k) == ([0x54, 0x50, 0x4d, |k.private|] + k.private) + ([0x54, 0x50, 0x4d, |k.public|] + k.public)
                           + ([0x54, 0x50, 0x4d, |k.seed|] + k.seed)
  {
    var a, b, c := k.Blobs()[0], k.Blobs()[1], k.Blobs()[2];
    EncoderOutput(SEPARATOR, Out([], None, EOF, None), k.Blobs());
    assert Accepted(k.Blobs()) == k.Blobs();
    assert [] + Encoding(SEPARATOR, k.Blobs()) == Encoding(SEPARATOR, k.Blobs());
    EncodingOfThree(SEPARATOR, a, b, c);
    assert [a, b, c] == k.Blobs();
  }

  lemma EncodingOfThree(sep: bytes, a: bytes, b: bytes, c: bytes)
    requires |a| <= 255 && |b| <= 255 && |c| <= 255
    ensures Encoding(sep, [a, b, c]) == sep + [|a|] + a + (sep + [|b|] + b) + (sep + [|c|] + c)
  {
    assert [a, b, c][1..] == [b, c] && [b, c][1..] == [c] && [c][1..] == [];
    assert Encoding(sep, [c]) == sep + [|c|] + c;
    assert Encoding(sep, [b, c]) == (sep + [|b|] + b) + Encoding(sep, [c]);
  }

  /** Every handle from registration fits the two-byte length of attested credential data; a
      complete one keeps to the 256 bytes announced to clients exactly when the blobs do not
      exceed 224 bytes together. */
  lemma HandleLength(k: Keys)
    requires |k.seed| == SEED_SIZE
    ensures |HandleOf(k)| <= 542
    ensures Short(k.Blobs()) ==> (|HandleOf(k)| <= 256 <==> |k.private| + |k.public| <= 224)
  {
    EncoderOutput(SEPARATOR, Out([], None, EOF, None), k.Blobs());
    var sent := Accepted(k.Blobs());
    assert HandleOf(k) == Encoding(SEPARATOR, sent);
    assert sent == k.Blobs()[..|sent|];
    assert forall i :: 0 <= i < |sent| ==> sent[i] == k.Blobs()[i];
    EncodingLength(SEPARATOR, sent);
    if |sent| > 0 {
      assert |sent[0]| <= 255 && Total(sent) == |sent[0]| + Total(sent[1..]);
      if |sent| > 1 {
        assert Total(sent[1..]) == |sent[1]| + Total(sent[1..][1..]);
        assert sent[1..][1..] == sent[2..];
        if |sent| > 2 {
          assert sent[2..] == [k.seed];
        }
      }
    }
  }

  function Total(msgs: seq<bytes>): nat {
    if msgs == [] then 0 else |msgs[0]| + Total(msgs[1..])
  }

  lemma {:induction false} EncodingLength(sep: bytes, msgs: seq<bytes>)
    requires Short(msgs)
    ensures |Encoding(sep, msgs)| == Total(msgs) + |msgs| * (|sep| + 1)
  {
    if msgs != [] {
      EncodingLength(sep, msgs[1..]);
    }
  }
}
