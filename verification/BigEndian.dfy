/** Big-endian numbers: minimal, fixed-width and padded to a P-256 coordinate. */
module BigEndian {
  import opened Basics

  function Value(b: bytes): nat {
    if b == [] then 0 else Value(b[..|b| - 1]) * 256 + b[|b| - 1]
  }

  /** `big.Int.Bytes`: no leading zero, and nothing at all for zero. */
  function Minimal(n: nat): bytes {
    if n == 0 then [] else Minimal(n / 256) + [n % 256]
  }

  /** The low `width` bytes of `n`, as `encoding/binary` writes a converted integer. */
  function Fixed(n: nat, width: nat): (r: bytes)
    ensures |r| == width
  {
    if width == 0 then [] else Fixed(n / 256, width - 1) + [n % 256]
  }

  function Pow256(k: nat): (p: nat)
    ensures p > 0
  {
    if k == 0 then 1 else 256 * Pow256(k - 1)
  }

  function Zeros(n: nat): bytes {
    seq(n, _ => 0)
  }

  function PadTo32(b: bytes): bytes {
    if |b| >= 32 then b[..32] else Zeros(32 - |b|) + b
  }

  method Pad(b: bytes) returns (r: bytes)
    ensures r == PadTo32(b)
  {
    if |b| >= 32 {
      return b[..32];
    }
    var padded := new byte[32](_ => 0);
    forall i | 0 <= i < |b| {
      padded[32 - |b| + i] := b[i];
    }
    return padded[..];
  }

  /** The other padding in the program, which leaves long inputs as they are. */
  function BigIntToBytes(n: nat): bytes {
    var b := Minimal(n);
    if |b| < 32 then Zeros(32 - |b|) + b else b
  }

  /** The coordinate encoding used in COSE keys. */
  function Coordinate(n: nat): bytes {
    PadTo32(Minimal(n))
  }

  lemma {:induction false} MinimalValue(n: nat)
    ensures Value(Minimal(n)) == n
    ensures Minimal(n) != [] ==> Minimal(n)[0] != 0
  {
    if n != 0 {
      MinimalValue(n / 256);
      assert Minimal(n)[..|Minimal(n)| - 1] == Minimal(n / 256);
    }
  }

  lemma {:induction false} MinimalFits(n: nat, k: nat)
    ensures n < Pow256(k) <==> |Minimal(n)| <= k
    decreases k
  {
    if n != 0 && k > 0 {
      MinimalFits(n / 256, k - 1);
    }
  }

  lemma {:induction false} ValueBound(b: bytes)
    ensures Value(b) < Pow256(|b|)
  {
    if b != [] {
      ValueBound(b[..|b| - 1]);
    }
  }

  lemma {:induction false} ValueOfZeros(n: nat, b: bytes)
    ensures Value(Zeros(n) + b) == Value(b)
    decreases |b|, n
  {
    if b != [] {
      assert (Zeros(n) + b)[..n + |b| - 1] == Zeros(n) + b[..|b| - 1];
      ValueOfZeros(n, b[..|b| - 1]);
    } else if n > 0 {
      assert (Zeros(n) + b)[..n - 1] == Zeros(n - 1) + b;
      ValueOfZeros(n - 1, b);
    }
  }

  /** The first byte is the most significant one. */
  lemma {:induction false} ValueSplits(a: byte, b: bytes)
    ensures Value([a] + b) == a * Pow256(|b|) + Value(b)
    decreases |b|
  {
    if b == [] {
      assert ([a] + b)[..0] == [];
    } else {
      assert ([a] + b)[..|b|] == [a] + b[..|b| - 1];
      ValueSplits(a, b[..|b| - 1]);
      Regroup(a, Pow256(|b| - 1), Value(b[..|b| - 1]), b[|b| - 1]);
    }
  }

  lemma Regroup(a: nat, p: nat, v: nat, low: nat)
    ensures (a * p + v) * 256 + low == a * (256 * p) + (v * 256 + low)
  {}

  /** Two and four bytes on the wire, for numbers of any size. */
  lemma FixedBytes(n: nat)
    ensures Fixed(n, 2) == [n / 256 % 256, n % 256]
    ensures Fixed(n, 4) == [n / 256 / 256 / 256 % 256, n / 256 / 256 % 256, n / 256 % 256, n % 256]
  {
    assert Fixed(n / 256 / 256 / 256, 1) == [n / 256 / 256 / 256 % 256];
    assert Fixed(n / 256 / 256, 2) == [n / 256 / 256 / 256 % 256, n / 256 / 256 % 256];
    assert Fixed(n / 256, 1) == [n / 256 % 256];
  }

  lemma {:induction false} SameLengthSameValue(a: bytes, b: bytes)
    requires |a| == |b| && Value(a) == Value(b)
    ensures a == b
  {
    if a != [] {
      SameLengthSameValue(a[..|a| - 1], b[..|b| - 1]);
    }
  }

  lemma {:induction false} FixedValueIff(n: nat, width: nat)
    ensures Value(Fixed(n, width)) == n <==> n < Pow256(width)
    decreases width
  {
    ValueBound(Fixed(n, width));
    if width > 0 {
      FixedValueIff(n / 256, width - 1);
      assert Fixed(n, width)[..width - 1] == Fixed(n / 256, width - 1);
    }
  }

  /** Padding always gives 32 bytes; it keeps the number exactly for numbers below 2^256, and
      there it agrees with the other padding. */
  lemma CoordinateIff(n: nat)
    ensures |Coordinate(n)| == 32
    ensures Value(Coordinate(n)) == n <==> n < Pow256(32)
    ensures n < Pow256(32) ==> Coordinate(n) == BigIntToBytes(n)
  {
    MinimalFits(n, 32);
    ValueBound(Coordinate(n));
    if n < Pow256(32) {
      BigIntValue(n);
      assert |Minimal(n)| == 32 ==> Minimal(n)[..32] == Minimal(n);
    }
  }

  lemma BigIntValue(n: nat)
    ensures Value(BigIntToBytes(n)) == n
    ensures n < Pow256(32) ==> |BigIntToBytes(n)| == 32
  {
    MinimalValue(n);
    MinimalFits(n, 32);
    if |Minimal(n)| < 32 {
      ValueOfZeros(32 - |Minimal(n)|, Minimal(n));
    }
  }

  /** The coordinate of a number is the one 32-byte string with its value. */
  lemma CoordinateOfValue(b: bytes)
    requires |b| == 32
    ensures Coordinate(Value(b)) == b
  {
    ValueBound(b);
    CoordinateIff(Value(b));
    SameLengthSameValue(Coordinate(Value(b)), b);
  }
}
