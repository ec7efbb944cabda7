/** The hmac-secret extension and the PRF: an encrypted exchange and a direct computation. */
module HmacSecret {
  import opened Basics
  import opened BigEndian
  import opened Crypto

  datatype Input =
    | Unparsable
    | Input(kty: int, crv: int, x: bytes, y: bytes, saltEnc: Blocks, saltAuth: bytes)

  datatype Error = BadInput | BadKeyType | BadCurve | NoKey | BadSaltAuth | DeriveFailed | BadSaltLength

  /** The key both sides encrypt under: a hash of the padded shared coordinate. */
  function SharedSecret(c: Crypto, private: nat, x: bytes, y: bytes): bytes {
    c.sha256(Coordinate(c.sharedX(private, Value(x), Value(y))))
  }

  function SaltAuth(c: Crypto, shared: bytes, saltEnc: bytes): bytes
    requires c.Lawful()
  {
    c.hmac(shared, saltEnc)[..16]
  }

  /** `ComputePRF`: one output, and a second one for a second salt. */
  function Prf(c: Crypto, credRandom: bytes, salt1: bytes, salt2: bytes): (bytes, Option<bytes>) {
    (c.hmac(credRandom, salt1), if |salt2| > 0 then Some(c.hmac(credRandom, salt2)) else None)
  }

  function Process(c: Crypto, ecdhKey: Option<nat>, credRandom: Option<bytes>, input: Input): (r: Result<Blocks, Error>)
    requires c.Lawful()
    ensures r.Ok? ==> |r.value| == 32 || |r.value| == 64
  {
    if input.Unparsable? then Err(BadInput)
    else if input.kty != 2 then Err(BadKeyType)
    else if input.crv != 1 then Err(BadCurve)
    else if ecdhKey.None? then Err(NoKey)
    else
      var shared := SharedSecret(c, ecdhKey.value, input.x, input.y);
      if input.saltAuth != SaltAuth(c, shared, input.saltEnc) then Err(BadSaltAuth)
      else if credRandom.None? then Err(DeriveFailed)
      else
        var salts := CbcDec(c, shared, ZERO_BLOCK, input.saltEnc);
        if |salts| == 32 then
          Ok(CbcEnc(c, shared, ZERO_BLOCK, c.hmac(credRandom.value, salts)))
        else if |salts| == 64 then
          Ok(CbcEnc(c, shared, ZERO_BLOCK,
                    c.hmac(credRandom.value, salts[..32]) + c.hmac(credRandom.value, salts[32..])))
        else Err(BadSaltLength)
  }

  method ProcessHmacSecret(c: Crypto, ecdhKey: Option<nat>, credRandom: Option<bytes>, input: Input)
    returns (r: Result<Blocks, Error>)
    requires c.Lawful()
    ensures r == Process(c, ecdhKey, credRandom, input)
  {
    if input.Unparsable? { return Err(BadInput); }
    if input.kty != 2 { return Err(BadKeyType); }
    if input.crv != 1 { return Err(BadCurve); }
    if ecdhKey.None? { return Err(NoKey); }
    var shared := SharedSecret(c, ecdhKey.value, input.x, input.y);
    if input.saltAuth != SaltAuth(c, shared, input.saltEnc) { return Err(BadSaltAuth); }
    var salts := CbcDecrypt(c, shared, ZERO_BLOCK, input.saltEnc);
    if credRandom.None? { return Err(DeriveFailed); }
    var output: bytes := [];
    if |salts| == 32 {
      output := c.hmac(credRandom.value, salts);
    } else if |salts| == 64 {
      output := c.hmac(credRandom.value, salts[..32]);
      output := output + c.hmac(credRandom.value, salts[32..]);
    } else {
      return Err(BadSaltLength);
    }
    var encrypted := CbcEncrypt(c, shared, ZERO_BLOCK, output);
    return Ok(encrypted);
  }

  // ---------------------------------------------------------------- properties

  /** What the protocol asks of a request made under `secret`. */
  ghost predicate Authentic(c: Crypto, secret: bytes, input: Input)
    requires c.Lawful()
  {
    input.Input? && input.kty == 2 && input.crv == 1 && input.saltAuth == c.hmac(secret, input.saltEnc)[..16]
  }

  /** The exchange answers exactly authentic requests carrying one or two 32-byte salts. */
  lemma ProcessAnswersIff(c: Crypto, ecdhKey: Option<nat>, credRandom: Option<bytes>, input: Input)
    requires c.Lawful()
    ensures Process(c, ecdhKey, credRandom, input).Ok?
       <==> && ecdhKey.Some? && credRandom.Some? && input.Input?
            && Authentic(c, c.sha256(Coordinate(c.sharedX(ecdhKey.value, Value(input.x), Value(input.y)))), input)
            && (|input.saltEnc| == 32 || |input.saltEnc| == 64)
  {}

  /** The first check that fails is the one reported. */
  lemma ProcessRefuses(c: Crypto, ecdhKey: Option<nat>, credRandom: Option<bytes>, input: Input)
    requires c.Lawful()
    ensures var r := Process(c, ecdhKey, credRandom, input);
            if input.Unparsable? then r == Err(BadInput)
            else if input.kty != 2 then r == Err(BadKeyType)
            else if input.crv != 1 then r == Err(BadCurve)
            else if ecdhKey.None? then r == Err(NoKey)
            else
              var secret := c.sha256(Coordinate(c.sharedX(ecdhKey.value, Value(input.x), Value(input.y))));
              if !Authentic(c, secret, input) then r == Err(BadSaltAuth)
              else if credRandom.None? then r == Err(DeriveFailed)
              else if |input.saltEnc| != 32 && |input.saltEnc| != 64 then r == Err(BadSaltLength)
              else r.Ok?
  {}

  /** One 32-byte output for each 32-byte salt. */
  function Outputs(c: Crypto, credRandom: bytes, salts: bytes): bytes
    requires |salts| == 32 || |salts| == 64
  {
    if |salts| == 32 then c.hmac(credRandom, salts)
    else c.hmac(credRandom, salts[..32]) + c.hmac(credRandom, salts[32..])
  }

  /** Decrypting what the exchange answers gives the direct computation's outputs for the salts
      that were sent. */
  lemma RoutesAgree(c: Crypto, d: nat, credRandom: bytes, input: Input)
    requires c.Lawful() && input.Input? && (|input.saltEnc| == 32 || |input.saltEnc| == 64)
    requires Authentic(c, c.sha256(Coordinate(c.sharedX(d, Value(input.x), Value(input.y)))), input)
    ensures var secret := c.sha256(Coordinate(c.sharedX(d, Value(input.x), Value(input.y))));
            var salts := CbcDec(c, secret, seq(16, _ => 0), input.saltEnc);
            var r := Process(c, Some(d), Some(credRandom), input);
            r.Ok? &&
            var (output1, output2) := Prf(c, credRandom, salts[..32], salts[32..]);
            && CbcDec(c, secret, seq(16, _ => 0), r.value) == output1 + (if output2.Some? then output2.value else [])
            && CbcDec(c, secret, seq(16, _ => 0), r.value) == Outputs(c, credRandom, salts)
            && (output2.Some? <==> |input.saltEnc| == 64)
  {
    assert seq(16, _ => 0) == ZERO_BLOCK;
    var secret := c.sha256(Coordinate(c.sharedX(d, Value(input.x), Value(input.y))));
    var salts := CbcDec(c, secret, ZERO_BLOCK, input.saltEnc);
    CbcInverse(c, secret, ZERO_BLOCK, Outputs(c, credRandom, salts));
    if |salts| == 32 {
      assert salts[..32] == salts;
    }
  }

  /** End to end: a platform with key `p` that holds the shared coordinate as 32 bytes `b` hashes it
      to a secret, encrypts one or two 32-byte salts under the secret with a zero initial block, and
      authenticates them with it. What it is answered decrypts to the PRF outputs for its salts. */
  lemma PlatformObtainsPrf(c: Crypto, d: nat, p: nat, x: bytes, y: bytes, b: bytes, credRandom: bytes, salts: Blocks)
    requires c.Lawful() && (|salts| == 32 || |salts| == 64)
    requires |b| == 32 && Value(b) == c.sharedX(p, c.publicKey(d).0, c.publicKey(d).1)
    requires Value(x) == c.publicKey(p).0 && Value(y) == c.publicKey(p).1
    ensures var secret, iv := c.sha256(b), seq(16, _ => 0);
            var saltEnc := CbcEnc(c, secret, iv, salts);
            var r := Process(c, Some(d), Some(credRandom), Input(2, 1, x, y, saltEnc, c.hmac(secret, saltEnc)[..16]));
            r.Ok? && CbcDec(c, secret, iv, r.value) == Outputs(c, credRandom, salts)
  {
    assert seq(16, _ => 0) == ZERO_BLOCK;
    var secret := c.sha256(b);
    var saltEnc := CbcEnc(c, secret, ZERO_BLOCK, salts);
    CoordinateOfValue(b);
    CbcInverse(c, secret, ZERO_BLOCK, salts);
    RoutesAgree(c, d, credRandom, Input(2, 1, x, y, saltEnc, c.hmac(secret, saltEnc)[..16]));
  }
}
