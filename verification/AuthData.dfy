/** Authenticator data and the COSE public key inside it. */
module AuthData {
  import opened Basics
  import opened BigEndian
  import Cbor

  datatype Flag = UserPresent | UserVerified | AttestedData | ExtensionData

  function Mask(f: Flag): bv8 {
    match f
    case UserPresent => 0x01
    case UserVerified => 0x04
    case AttestedData => 0x40
    case ExtensionData => 0x80
  }

  predicate Has(flags: bv8, f: Flag) {
    flags & Mask(f) != 0
  }

  function With(flags: bv8, f: Flag): (r: bv8)
    ensures forall g :: Has(r, g) <==> g == f || Has(flags, g)
  {
    flags | Mask(f)
  }

  predicate BitSet(flags: bv8, mask: bv8) {
    flags & mask != 0
  }

  /** The bits of a flag byte, which no two flags share. */
  lemma FlagBits(flags: bv8)
    ensures Has(flags, UserPresent) <==> BitSet(flags, 0x01)
    ensures Has(flags, UserVerified) <==> BitSet(flags, 0x04)
    ensures Has(flags, AttestedData) <==> BitSet(flags, 0x40)
    ensures Has(flags, ExtensionData) <==> BitSet(flags, 0x80)
  {}

  // ---------------------------------------------------------------- COSE key

  /** The entries of an ES256 key, in the encoder's canonical order. */
  function KeyItems(x: nat, y: nat): seq<bytes>
  {
    CoordinateIff(x);
    CoordinateIff(y);
    [Cbor.Int(1), Cbor.Int(2), Cbor.Int(3), Cbor.Int(-7), Cbor.Int(-1), Cbor.Int(1),
     Cbor.Int(-2), Cbor.Bytes(Coordinate(x)), Cbor.Int(-3), Cbor.Bytes(Coordinate(y))]
  }

  function CoseKey(x: nat, y: nat): bytes {
    Cbor.Map(KeyItems(x, y))
  }

  lemma KeyHeadBytes(x: nat, y: nat)
    ensures Cbor.Concat(KeyItems(x, y)[..5]) == [1, 2, 3, 0x26, 0x20]
  {
    Cbor.ConcatFive(KeyItems(x, y)[..5]);
  }

  lemma KeyTailBytes(x: nat, y: nat)
    ensures Cbor.Concat(KeyItems(x, y)[5..]) == [1, 0x21, 0x58, 32] + Coordinate(x) + ([0x22, 0x58, 32] + Coordinate(y))
  {
    CoordinateIff(x);
    CoordinateIff(y);
    var b := KeyItems(x, y)[5..];
    Cbor.ConcatFive(b);
    assert b[1] == [0x21] && b[2] == [0x58, 32] + Coordinate(x);
    assert b[3] == [0x22] && b[4] == [0x58, 32] + Coordinate(y);
  }

  lemma KeyBodyBytes(x: nat, y: nat)
    ensures Cbor.Concat(KeyItems(x, y))
         == [1, 2, 3, 0x26, 0x20] + ([1, 0x21, 0x58, 32] + Coordinate(x) + ([0x22, 0x58, 32] + Coordinate(y)))
  {
    var k := KeyItems(x, y);
    KeyHeadBytes(x, y);
    KeyTailBytes(x, y);
    Cbor.ConcatConcat(k[..5], k[5..]);
    assert k[..5] + k[5..] == k;
  }

  lemma CoseKeyBytes(x: nat, y: nat)
    ensures |Coordinate(x)| == 32 && |Coordinate(y)| == 32
    ensures CoseKey(x, y)
         == [0xa5, 1, 2, 3, 0x26, 0x20, 1, 0x21, 0x58, 32] + Coordinate(x) + [0x22, 0x58, 32] + Coordinate(y)
    ensures |CoseKey(x, y)| == 77
  {
    CoordinateIff(x);
    CoordinateIff(y);
    KeyBodyBytes(x, y);
    JoinHead(Coordinate(x), [0x22, 0x58, 32] + Coordinate(y));
    assert CoseKey(x, y) == [0xa5] + Cbor.Concat(KeyItems(x, y));
  }

  lemma JoinHead(a: bytes, b: bytes)
    ensures [0xa5] + ([1, 2, 3, 0x26, 0x20] + ([1, 0x21, 0x58, 32] + a + b))
         == [0xa5, 1, 2, 3, 0x26, 0x20, 1, 0x21, 0x58, 32] + a + b
  {}

  /** Whatever the point, the key is 77 bytes and one CBOR item. */
  lemma CoseKeyShape(x: nat, y: nat)
    ensures |CoseKey(x, y)| == 77 && Cbor.IsItem(CoseKey(x, y))
  {
    CoseKeyBytes(x, y);
    Cbor.IntIsItem(1);
    Cbor.IntIsItem(2);
    Cbor.IntIsItem(3);
    Cbor.IntIsItem(-7);
    Cbor.IntIsItem(-1);
    Cbor.IntIsItem(-2);
    Cbor.IntIsItem(-3);
    Cbor.StringsAreItems(Coordinate(x));
    Cbor.StringsAreItems(Coordinate(y));
    Cbor.MapIsItem(KeyItems(x, y));
  }

  lemma CoseKeyCoordinates(x: nat, y: nat)
    ensures |CoseKey(x, y)| == 77 && CoseKey(x, y)[10..42] == Coordinate(x) && CoseKey(x, y)[45..] == Coordinate(y)
  {
    CoseKeyBytes(x, y);
  }

  /** Below 2^256 the key determines the point. */
  lemma CoseKeyInjective(x: nat, y: nat, x': nat, y': nat)
    requires x < Pow256(32) && y < Pow256(32) && x' < Pow256(32) && y' < Pow256(32)
    ensures CoseKey(x, y) == CoseKey(x', y') <==> x == x' && y == y'
  {
    CoseKeyCoordinates(x, y);
    CoseKeyCoordinates(x', y');
    CoordinateIff(x);
    CoordinateIff(y);
    CoordinateIff(x');
    CoordinateIff(y');
  }

  // ---------------------------------------------------------------- extensions

  const HMAC_SECRET: bytes := Text("hmac-secret")

  function CreateExtension(): bytes {
    Cbor.Map([Cbor.TextString(HMAC_SECRET), Cbor.TRUE])
  }

  function GetExtension(output: bytes): bytes
    requires |output| < 256
  {
    Cbor.Map([Cbor.TextString(HMAC_SECRET), Cbor.Bytes(output)])
  }

  /** The bytes on the wire: a one-entry map from the extension's name. */
  lemma ExtensionsOnTheWire(output: bytes)
    requires |output| == 32 || |output| == 64
    ensures CreateExtension() == [0xa1, 0x6b] + Text("hmac-secret") + [0xf5]
    ensures GetExtension(output) == [0xa1, 0x6b] + Text("hmac-secret") + [0x58, |output|] + output
  {
    var name := Cbor.TextString(HMAC_SECRET);
    assert name == [0x6b] + HMAC_SECRET;
    forall v: bytes
      ensures Cbor.Map([name, v]) == [0xa1] + name + v
    {
      assert [name, v][1..] == [v] && [v][1..] == [];
      assert Cbor.Concat([v]) == v;
      assert Cbor.Concat([name, v]) == name + v;
    }
  }

  lemma ExtensionsAreItems(output: bytes)
    requires |output| < 256
    ensures Cbor.IsItem(CreateExtension()) && CreateExtension() != []
    ensures Cbor.IsItem(GetExtension(output)) && GetExtension(output) != []
  {
    Cbor.StringsAreItems(HMAC_SECRET);
    Cbor.StringsAreItems(output);
    Cbor.TrueIsItem();
    Cbor.MapIsItem([Cbor.TextString(HMAC_SECRET), Cbor.TRUE]);
    Cbor.MapIsItem([Cbor.TextString(HMAC_SECRET), Cbor.Bytes(output)]);
  }

  // ---------------------------------------------------------------- layout

  datatype Attested = Attested(aaguid: bytes, credentialId: bytes, publicKey: bytes)

  datatype AuthenticatorData = AuthenticatorData(
    rpIdHash: bytes, flags: bv8, signCount: nat, attested: Option<Attested>, extensions: bytes)

  function AttestedPart(ad: AuthenticatorData): bytes {
    if Has(ad.flags, AttestedData) && ad.attested.Some? then
      var a := ad.attested.value;
      a.aaguid + Fixed(|a.credentialId|, 2) + a.credentialId + a.publicKey
    else []
  }

  function ExtensionPart(ad: AuthenticatorData): bytes {
    if Has(ad.flags, ExtensionData) && |ad.extensions| > 0 then ad.extensions else []
  }

  function Layout(ad: AuthenticatorData): bytes {
    ad.rpIdHash + [ad.flags as int] + Fixed(ad.signCount, 4) + AttestedPart(ad) + ExtensionPart(ad)
  }

  method Marshal(ad: AuthenticatorData) returns (buf: bytes)
    ensures buf == Layout(ad)
  {
    buf := ad.rpIdHash;
    buf := buf + [ad.flags as int];
    buf := buf + Fixed(ad.signCount, 4);
    if Has(ad.flags, AttestedData) && ad.attested.Some? {
      var acd := ad.attested.value;
      buf := buf + acd.aaguid;
      buf := buf + Fixed(|acd.credentialId|, 2);
      buf := buf + acd.credentialId;
      buf := buf + acd.publicKey;
      assert buf == ad.rpIdHash + [ad.flags as int] + Fixed(ad.signCount, 4) + AttestedPart(ad);
    }
    if Has(ad.flags, ExtensionData) && |ad.extensions| > 0 {
      buf := buf + ad.extensions;
    }
  }

  /** A relying party's reader: the flags say which parts are present, the ID carries its length,
      the key and the extensions are one CBOR item each, and nothing may be left over. */
  function Read(b: bytes): Option<AuthenticatorData> {
    if |b| < 37 then None
    else
      var flags, rest := b[32] as bv8, b[37..];
      var base := AuthenticatorData(b[..32], flags, Value(b[33..37]), None, []);
      if BitSet(flags, 0x40) then ReadAttested(base, rest) else ReadExtensions(base, rest)
  }

  function ReadAttested(base: AuthenticatorData, rest: bytes): Option<AuthenticatorData> {
    if |rest| < 18 then None
    else
      var n := Value(rest[16..18]);
      if |rest| < 18 + n then None
      else
        var more := rest[18 + n..];
        match Cbor.Skip(more)
        case None => None
        case Some(k) =>
          ReadExtensions(base.(attested := Some(Attested(rest[..16], rest[18..18 + n], more[..k]))), more[k..])
  }

  function ReadExtensions(base: AuthenticatorData, rest: bytes): Option<AuthenticatorData> {
    if !BitSet(base.flags, 0x80) then if rest == [] then Some(base) else None
    else if Cbor.Skip(rest) == Some(|rest|) then Some(base.(extensions := rest))
    else None
  }

  /** What the handlers put into the layout. */
  ghost predicate WellFormed(ad: AuthenticatorData) {
    && |ad.rpIdHash| == 32 && ad.signCount < Pow256(4)
    && (Has(ad.flags, AttestedData) <==> ad.attested.Some?)
    && (Has(ad.flags, ExtensionData) <==> ad.extensions != [])
    && (ad.attested.Some? ==> |ad.attested.value.aaguid| == 16 && Cbor.IsItem(ad.attested.value.publicKey))
    && (ad.extensions != [] ==> Cbor.IsItem(ad.extensions))
  }

  lemma ReadsExtensions(base: AuthenticatorData, ad: AuthenticatorData)
    requires WellFormed(ad) && base == ad.(extensions := [])
    ensures ReadExtensions(base, ExtensionPart(ad)) == Some(ad)
  {
    FlagBits(ad.flags);
    if ad.extensions != [] {
      Cbor.ItemAlone(ad.extensions);
    }
  }

  lemma ReadsFixedPart(ad: AuthenticatorData, rest: bytes)
    requires |ad.rpIdHash| == 32 && ad.signCount < Pow256(4)
    ensures var b := ad.rpIdHash + [ad.flags as int] + Fixed(ad.signCount, 4) + rest;
            && |b| >= 37 && b[..32] == ad.rpIdHash && b[32] as bv8 == ad.flags
            && Value(b[33..37]) == ad.signCount && b[37..] == rest
  {
    var b := ad.rpIdHash + [ad.flags as int] + Fixed(ad.signCount, 4) + rest;
    FixedValueIff(ad.signCount, 4);
    assert b[33..37] == Fixed(ad.signCount, 4);
  }

  lemma ReadsAttestedPart(a: Attested, more: bytes)
    requires |a.aaguid| == 16
    ensures var n := |a.credentialId|;
            var b := a.aaguid + Fixed(n, 2) + a.credentialId + a.publicKey + more;
            && |b| >= 18 && b[..16] == a.aaguid && Value(b[16..18]) < 65536
            && (Value(b[16..18]) == n <==> n < 65536)
            && |b| >= 18 + n && b[18..18 + n] == a.credentialId && b[18 + n..] == a.publicKey + more
  {
    var n := |a.credentialId|;
    var b := a.aaguid + Fixed(n, 2) + a.credentialId + a.publicKey + more;
    assert b[16..18] == Fixed(n, 2);
    FixedValueIff(n, 2);
    ValueBound(b[16..18]);
    assert Pow256(2) == 256 * Pow256(1) && Pow256(1) == 256 * Pow256(0);
  }

  lemma ReadBackPlain(ad: AuthenticatorData)
    requires WellFormed(ad) && ad.attested.None?
    ensures Read(Layout(ad)) == Some(ad)
  {
    var tail := ExtensionPart(ad);
    assert Layout(ad) == ad.rpIdHash + [ad.flags as int] + Fixed(ad.signCount, 4) + tail;
    ReadsFixedPart(ad, tail);
    FlagBits(ad.flags);
    ReadsExtensions(ad.(extensions := []), ad);
  }

  lemma ReadsAttested(ad: AuthenticatorData)
    requires WellFormed(ad) && ad.attested.Some?
    ensures ReadAttested(ad.(attested := None, extensions := []), AttestedPart(ad) + ExtensionPart(ad)) == Some(ad)
       <==> |ad.attested.value.credentialId| < 65536
  {
    var a, ext := ad.attested.value, ExtensionPart(ad);
    ReadsAttestedPart(a, ext);
    if |a.credentialId| < 65536 {
      assert Cbor.Skip(a.publicKey + ext) == Some(|a.publicKey|);
      assert (a.publicKey + ext)[..|a.publicKey|] == a.publicKey && (a.publicKey + ext)[|a.publicKey|..] == ext;
      ReadsExtensions(ad.(extensions := []), ad);
    }
  }

  lemma ReadBackAttested(ad: AuthenticatorData)
    requires WellFormed(ad) && ad.attested.Some?
    ensures Read(Layout(ad)) == Some(ad) <==> |ad.attested.value.credentialId| < 65536
  {
    var tail := AttestedPart(ad) + ExtensionPart(ad);
    assert Layout(ad) == ad.rpIdHash + [ad.flags as int] + Fixed(ad.signCount, 4) + tail;
    ReadsFixedPart(ad, tail);
    FlagBits(ad.flags);
    ReadsAttested(ad);
  }

  /** The reader recovers every field and consumes every byte exactly when the credential ID's
      length fits its two-byte field. */
  lemma ReadBackIff(ad: AuthenticatorData)
    requires WellFormed(ad)
    ensures Read(Layout(ad)) == Some(ad) <==> (ad.attested.Some? ==> |ad.attested.value.credentialId| < 65536)
  {
    if ad.attested.None? {
      ReadBackPlain(ad);
    } else {
      ReadBackAttested(ad);
    }
  }

  // ---------------------------------------------------------------- what the handlers build

  function CreateData(rpIdHash: bytes, aaguid: bytes, id: bytes, x: nat, y: nat, hmacSecret: bool, count: nat)
    : AuthenticatorData
  {
    var flags := With(With(With(0, UserPresent), UserVerified), AttestedData);
    AuthenticatorData(
      rpIdHash, if hmacSecret then With(flags, ExtensionData) else flags, count,
      Some(Attested(aaguid, id, CoseKey(x, y))), if hmacSecret then CreateExtension() else [])
  }

  function AssertionData(rpIdHash: bytes, extensions: bytes, count: nat): AuthenticatorData {
    var flags := With(With(0, UserPresent), UserVerified);
    AuthenticatorData(
      rpIdHash, if |extensions| > 0 then With(flags, ExtensionData) else flags, count, None, extensions)
  }

  /** Registration data on the wire: user present, user verified, attested data and perhaps
      extensions are bits 0, 2, 6 and 7 of the flag byte. */
  lemma CreateDataOnTheWire(rpIdHash: bytes, aaguid: bytes, id: bytes, x: nat, y: nat, hmacSecret: bool, count: nat)
    ensures Layout(CreateData(rpIdHash, aaguid, id, x, y, hmacSecret, count))
         == rpIdHash + [if hmacSecret then 0xc5 else 0x45] + Fixed(count, 4)
            + (aaguid + Fixed(|id|, 2) + id + CoseKey(x, y))
            + (if hmacSecret then CreateExtension() else [])
  {
    FlagBytes();
    ExtensionsAreItems([]);
  }

  /** The same for assertions, which carry no attested data. */
  lemma AssertionDataOnTheWire(rpIdHash: bytes, output: Option<bytes>, count: nat)
    requires output.Some? ==> |output.value| < 256
    ensures Layout(AssertionData(rpIdHash, if output.Some? then GetExtension(output.value) else [], count))
         == rpIdHash + [if output.Some? then 0x85 else 0x05] + Fixed(count, 4)
            + (if output.Some? then GetExtension(output.value) else [])
  {
    FlagBytes();
    ExtensionsAreItems(if output.Some? then output.value else []);
  }

  lemma FlagBytes()
    ensures var presence := With(With(0, UserPresent), UserVerified);
            && presence as int == 0x05 && With(presence, ExtensionData) as int == 0x85
            && With(presence, AttestedData) as int == 0x45
            && With(With(presence, AttestedData), ExtensionData) as int == 0xc5
            && !Has(presence, AttestedData) && Has(With(presence, AttestedData), AttestedData)
  {}

  /** Registration data reads back exactly for IDs below 65536 bytes; the flags then tell the
      relying party what was asked for. */
  lemma CreateDataReads(rpIdHash: bytes, aaguid: bytes, id: bytes, x: nat, y: nat, hmacSecret: bool, count: nat)
    requires |rpIdHash| == 32 && |aaguid| == 16 && count < Pow256(4)
    ensures var ad := CreateData(rpIdHash, aaguid, id, x, y, hmacSecret, count);
            && (Read(Layout(ad)) == Some(ad) <==> |id| < 65536)
            && Has(ad.flags, UserPresent) && Has(ad.flags, UserVerified) && Has(ad.flags, AttestedData)
            && (Has(ad.flags, ExtensionData) <==> hmacSecret)
  {
    CoseKeyShape(x, y);
    ExtensionsAreItems([]);
    ReadBackIff(CreateData(rpIdHash, aaguid, id, x, y, hmacSecret, count));
  }

  /** Assertion data always reads back, with or without an hmac-secret output. */
  lemma AssertionDataReads(rpIdHash: bytes, output: Option<bytes>, count: nat)
    requires |rpIdHash| == 32 && count < Pow256(4) && (output.Some? ==> |output.value| < 256)
    ensures var ext := if output.Some? then GetExtension(output.value) else [];
            var ad := AssertionData(rpIdHash, ext, count);
            && Read(Layout(ad)) == Some(ad)
            && Has(ad.flags, UserPresent) && Has(ad.flags, UserVerified) && !Has(ad.flags, AttestedData)
            && (Has(ad.flags, ExtensionData) <==> output.Some?)
  {
    ExtensionsAreItems(if output.Some? then output.value else []);
    ReadBackIff(AssertionData(rpIdHash, if output.Some? then GetExtension(output.value) else [], count));
  }
}
