/** The cryptographic library as functions with laws, and CBC over its block cipher. */
module Crypto {
  import opened Basics
  import opened BigEndian

  datatype Crypto = Crypto(
    sha256: bytes -> bytes,
    hmac: (bytes, bytes) -> bytes,
    encryptBlock: (bytes, bytes) -> bytes,
    decryptBlock: (bytes, bytes) -> bytes,
    publicKey: nat -> (nat, nat),
    sharedX: (nat, nat, nat) -> nat)
  {
    /** Fixed output lengths, block decryption inverts block encryption, and both sides of a key
        agreement reach one secret. */
    ghost predicate Lawful() {
      && (forall m :: |sha256(m)| == 32)
      && (forall k, m :: |hmac(k, m)| == 32)
      && (forall k, b :: |b| == 16 ==> |encryptBlock(k, b)| == 16 && decryptBlock(k, encryptBlock(k, b)) == b)
      && (forall k, b :: |b| == 16 ==> |decryptBlock(k, b)| == 16 && encryptBlock(k, decryptBlock(k, b)) == b)
      && (forall d :: publicKey(d).0 < Pow256(32) && publicKey(d).1 < Pow256(32))
      && (forall d, p :: sharedX(d, publicKey(p).0, publicKey(p).1) == sharedX(p, publicKey(d).0, publicKey(d).1))
    }
  }

  // ---------------------------------------------------------------- exclusive or

  function Pow2(n: nat): nat {
    if n == 0 then 1 else 2 * Pow2(n - 1)
  }

  function XorBits(a: nat, b: nat, n: nat): (r: nat)
    ensures r < Pow2(n)
  {
    if n == 0 then 0 else (a % 2 + b % 2) % 2 + 2 * XorBits(a / 2, b / 2, n - 1)
  }

  function XorByte(a: byte, b: byte): byte {
    assert Pow2(8) == 256 by { assert Pow2(4) == 16; assert Pow2(6) == 64; }
    XorBits(a, b, 8)
  }

  lemma {:induction false} XorBitsCommute(a: nat, b: nat, n: nat)
    ensures XorBits(a, b, n) == XorBits(b, a, n)
    decreases n
  {
    if n > 0 {
      XorBitsCommute(a / 2, b / 2, n - 1);
    }
  }

  lemma LowBit(bit: nat, rest: nat)
    requires bit < 2
    ensures (bit + 2 * rest) / 2 == rest && (bit + 2 * rest) % 2 == bit
  {}

  lemma XorLowBit(bit: nat, rest: nat, b: nat, n: nat)
    requires bit < 2 && n > 0
    ensures XorBits(bit + 2 * rest, b, n) == (bit + b % 2) % 2 + 2 * XorBits(rest, b / 2, n - 1)
  {
    LowBit(bit, rest);
  }

  lemma XorBit(a: nat, b: nat)
    requires a < 2 && b < 2
    ensures ((a + b) % 2 + b) % 2 == a
  {}

  lemma {:induction false} XorBitsCancel(a: nat, b: nat, n: nat)
    requires a < Pow2(n)
    ensures XorBits(XorBits(a, b, n), b, n) == a
    decreases n
  {
    if n > 0 {
      var bit, rest := (a % 2 + b % 2) % 2, XorBits(a / 2, b / 2, n - 1);
      XorBitsCancel(a / 2, b / 2, n - 1);
      XorLowBit(bit, rest, b, n);
      XorBit(a % 2, b % 2);
    }
  }

  function Bit(a: nat, k: nat): nat {
    if k == 0 then a % 2 else Bit(a / 2, k - 1)
  }

  /** Each bit of the result tells whether the operands differ there. */
  lemma {:induction false} XorBitsAt(a: nat, b: nat, n: nat, k: nat)
    requires k < n
    ensures Bit(XorBits(a, b, n), k) == if Bit(a, k) == Bit(b, k) then 0 else 1
    decreases n
  {
    var bit, rest := (a % 2 + b % 2) % 2, XorBits(a / 2, b / 2, n - 1);
    LowBit(bit, rest);
    if k > 0 {
      XorBitsAt(a / 2, b / 2, n - 1, k - 1);
    }
  }

  lemma XorAt(a: bytes, b: bytes, i: nat, k: nat)
    requires |a| == |b| && i < |a| && k < 8
    ensures Bit(Xor(a, b)[i], k) == if Bit(a[i], k) == Bit(b[i], k) then 0 else 1
  {
    XorBitsAt(a[i], b[i], 8, k);
  }

  function Xor(a: bytes, b: bytes): (r: bytes)
    requires |a| == |b|
    ensures |r| == |a|
  {
    seq(|a|, i requires 0 <= i < |a| => XorByte(a[i], b[i]))
  }

  lemma XorCancel(a: bytes, b: bytes)
    requires |a| == |b|
    ensures Xor(Xor(a, b), b) == a && Xor(b, Xor(b, a)) == a && Xor(a, b) == Xor(b, a)
  {
    assert Pow2(8) == 256 by { assert Pow2(4) == 16; assert Pow2(6) == 64; }
    forall i | 0 <= i < |a|
      ensures XorByte(XorByte(a[i], b[i]), b[i]) == a[i] && XorByte(a[i], b[i]) == XorByte(b[i], a[i])
              && XorByte(b[i], XorByte(b[i], a[i])) == a[i]
    {
      XorBitsCancel(a[i], b[i], 8);
      XorBitsCommute(a[i], b[i], 8);
      XorBitsCommute(b[i], XorByte(b[i], a[i]), 8);
    }
  }

  // ---------------------------------------------------------------- CBC

  type Blocks = b: bytes | |b| % 16 == 0

  const ZERO_BLOCK: bytes := Zeros(16)

  /** Section 6.2 of NIST SP 800-38A. */
  function CbcEnc(c: Crypto, key: bytes, prev: bytes, src: Blocks): (dst: Blocks)
    requires c.Lawful() && |prev| == 16
    ensures |dst| == |src|
    decreases |src|
  {
    if src == [] then []
    else
      var block := c.encryptBlock(key, Xor(src[..16], prev));
      block + CbcEnc(c, key, block, src[16..])
  }

  function CbcDec(c: Crypto, key: bytes, prev: bytes, src: Blocks): (dst: Blocks)
    requires c.Lawful() && |prev| == 16
    ensures |dst| == |src|
    decreases |src|
  {
    if src == [] then []
    else Xor(c.decryptBlock(key, src[..16]), prev) + CbcDec(c, key, src[..16], src[16..])
  }

  /** Each block is the encryption of its plain text and the block before it. */
  lemma {:induction false} CbcChains(c: Crypto, key: bytes, prev: bytes, src: Blocks, i: nat)
    requires c.Lawful() && |prev| == 16 && i % 16 == 0 && i < |src|
    ensures i + 16 <= |src|
    ensures var dst := CbcEnc(c, key, prev, src);
            dst[i..i + 16] == c.encryptBlock(key, Xor(src[i..i + 16], if i == 0 then prev else dst[i - 16..i]))
    decreases i
  {
    var block := c.encryptBlock(key, Xor(src[..16], prev));
    var rest := CbcEnc(c, key, block, src[16..]);
    if i > 0 {
      CbcChains(c, key, block, src[16..], i - 16);
      Shifted(src[..16], src[16..], i);
      Shifted(block, rest, i);
      if i > 16 {
        Shifted(block, rest, i - 16);
      }
      assert src[..16] + src[16..] == src;
    }
  }

  lemma Shifted(a: bytes, b: bytes, i: nat)
    requires |a| == 16 <= i && i <= |b|
    ensures (a + b)[i..i + 16] == b[i - 16..i]
  {}

  lemma CbcAt(c: Crypto, key: bytes, prev: bytes, src: Blocks, i: nat)
    requires c.Lawful() && |prev| == 16 && i % 16 == 0 && i < |src|
    ensures i + 16 <= |src| && (i + 16) % 16 == 0
    ensures var block := c.encryptBlock(key, Xor(src[i..i + 16], prev));
            CbcEnc(c, key, prev, src[i..]) == block + CbcEnc(c, key, block, src[i + 16..])
    ensures CbcDec(c, key, prev, src[i..])
         == Xor(c.decryptBlock(key, src[i..i + 16]), prev) + CbcDec(c, key, src[i..i + 16], src[i + 16..])
  {
    var left := src[i..];
    assert left[..16] == src[i..i + 16] && left[16..] == src[i + 16..];
  }

  /** One block of work keeps "done so far, then the rest" equal to the whole. */
  lemma EncStep(c: Crypto, key: bytes, iv: bytes, prev: bytes, src: Blocks, i: nat, dst: bytes)
    requires c.Lawful() && |prev| == |iv| == 16 && i % 16 == 0 && i < |src|
    requires dst + CbcEnc(c, key, prev, src[i..]) == CbcEnc(c, key, iv, src)
    ensures i + 16 <= |src| && (i + 16) % 16 == 0
    ensures var block := c.encryptBlock(key, Xor(src[i..i + 16], prev));
            |block| == 16 && (dst + block) + CbcEnc(c, key, block, src[i + 16..]) == CbcEnc(c, key, iv, src)
  {
    CbcAt(c, key, prev, src, i);
    var block := c.encryptBlock(key, Xor(src[i..i + 16], prev));
    Assoc(dst, block, CbcEnc(c, key, block, src[i + 16..]));
  }

  lemma DecStep(c: Crypto, key: bytes, iv: bytes, prev: bytes, src: Blocks, i: nat, dst: bytes)
    requires c.Lawful() && |prev| == |iv| == 16 && i % 16 == 0 && i < |src|
    requires dst + CbcDec(c, key, prev, src[i..]) == CbcDec(c, key, iv, src)
    ensures i + 16 <= |src| && (i + 16) % 16 == 0
    ensures var plain := Xor(c.decryptBlock(key, src[i..i + 16]), prev);
            |plain| == 16
            && (dst + plain) + CbcDec(c, key, src[i..i + 16], src[i + 16..]) == CbcDec(c, key, iv, src)
  {
    CbcAt(c, key, prev, src, i);
    var plain := Xor(c.decryptBlock(key, src[i..i + 16]), prev);
    Assoc(dst, plain, CbcDec(c, key, src[i..i + 16], src[i + 16..]));
  }

  method CbcEncrypt(c: Crypto, key: bytes, iv: bytes, src: Blocks) returns (dst: bytes)
    requires c.Lawful() && |iv| == 16
    ensures dst == CbcEnc(c, key, iv, src)
  {
    dst := [];
    var prev := iv;
    var i := 0;
    while i < |src|
      invariant 0 <= i <= |src| && i % 16 == 0 && |prev| == 16
      invariant dst + CbcEnc(c, key, prev, src[i..]) == CbcEnc(c, key, iv, src)
      decreases |src| - i
    {
      EncStep(c, key, iv, prev, src, i, dst);
      prev := c.encryptBlock(key, Xor(src[i..i + 16], prev));
      dst := dst + prev;
      i := i + 16;
    }
  }

  method CbcDecrypt(c: Crypto, key: bytes, iv: bytes, src: Blocks) returns (dst: bytes)
    requires c.Lawful() && |iv| == 16
    ensures dst == CbcDec(c, key, iv, src)
  {
    dst := [];
    var prev := iv;
    var i := 0;
    while i < |src|
      invariant 0 <= i <= |src| && i % 16 == 0 && |prev| == 16
      invariant dst + CbcDec(c, key, prev, src[i..]) == CbcDec(c, key, iv, src)
      decreases |src| - i
    {
      DecStep(c, key, iv, prev, src, i, dst);
      dst := dst + Xor(c.decryptBlock(key, src[i..i + 16]), prev);
      prev := src[i..i + 16];
      i := i + 16;
    }
  }

  lemma {:induction false} CbcInverse(c: Crypto, key: bytes, prev: bytes, src: Blocks)
    requires c.Lawful() && |prev| == 16
    ensures CbcDec(c, key, prev, CbcEnc(c, key, prev, src)) == src
    ensures CbcEnc(c, key, prev, CbcDec(c, key, prev, src)) == src
    decreases |src|
  {
    if src != [] {
      var p := src[..16];
      var block := c.encryptBlock(key, Xor(p, prev));
      var e := CbcEnc(c, key, prev, src);
      XorCancel(p, prev);
      CbcInverse(c, key, block, src[16..]);
      assert e[..16] == block && e[16..] == CbcEnc(c, key, block, src[16..]);
      assert src == p + src[16..];
      var plain := Xor(c.decryptBlock(key, p), prev);
      var d := CbcDec(c, key, prev, src);
      XorCancel(c.decryptBlock(key, p), prev);
      CbcInverse(c, key, p, src[16..]);
      assert d[..16] == plain && d[16..] == CbcDec(c, key, p, src[16..]);
    }
  }
}
