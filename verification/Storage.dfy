/** The resident credential store: a list, two derived indexes and the file behind them. */
module Storage {
  import opened Basics

  datatype Credential = Credential(
    rpId: bytes, rpName: bytes, userId: bytes, userName: bytes, userDisplayName: bytes,
    credentialId: bytes, publicKeyX: bytes, publicKeyY: bytes, createdAt: int)

  type Key = (bytes, bytes)

  function KeyOf(c: Credential): Key { (c.rpId, c.userId) }

  // ---------------------------------------------------------------- the list

  /** The credentials of one relying party, in list order. */
  function ByRP(creds: seq<Credential>, rpId: bytes): seq<Credential> {
    if creds == [] then []
    else ByRP(creds[..|creds| - 1], rpId) + (if creds[|creds| - 1].rpId == rpId then [creds[|creds| - 1]] else [])
  }

  /** The last credential with the given ID. */
  function LastById(creds: seq<Credential>, id: bytes): Option<Credential> {
    if creds == [] then None
    else if creds[|creds| - 1].credentialId == id then Some(creds[|creds| - 1])
    else LastById(creds[..|creds| - 1], id)
  }

  function Without(creds: seq<Credential>, id: bytes): seq<Credential> {
    if creds == [] then []
    else
      var last := creds[|creds| - 1];
      Without(creds[..|creds| - 1], id) + (if last.credentialId == id then [] else [last])
  }

  /** The position of the first credential with key `k`, or the length of the list. */
  function First(creds: seq<Credential>, k: Key): (i: nat)
    ensures i <= |creds|
    ensures forall j :: 0 <= j < i ==> KeyOf(creds[j]) != k
    ensures i < |creds| ==> KeyOf(creds[i]) == k
  {
    if creds == [] then 0
    else if KeyOf(creds[0]) == k then 0
    else 1 + First(creds[1..], k)
  }

  /** Overwrite the first credential of the same relying party and user, or append. */
  function Saved(creds: seq<Credential>, c: Credential): seq<Credential> {
    var i := First(creds, KeyOf(c));
    if i < |creds| then creds[i := c] else creds + [c]
  }

  // ---------------------------------------------------------------- the file

  /** The credentials file and the temporary file beside it. */
  datatype Files = Files(main: Option<bytes>, tmp: Option<bytes>)

  /** The JSON library. */
  datatype Codec = Codec(marshal: seq<Credential> -> bytes, unmarshal: bytes -> Option<seq<Credential>>) {
    ghost predicate Lawful() {
      forall creds :: unmarshal(marshal(creds)) == Some(creds)
    }
  }

  /** What the file system does to one write-then-rename. */
  datatype Fault = NoFault | OpenFails | WriteFails(taken: nat) | RenameFails

  function Written(f: Files, data: bytes, fault: Fault): Files {
    match fault
    case NoFault => Files(Some(data), None)
    case OpenFails => f
    case WriteFails(n) => f.(tmp := Some(if n <= |data| then data[..n] else data))
    case RenameFails => f.(tmp := Some(data))
  }

  /** What a process starting on these files holds; a file that cannot be read or parsed is
      passed over, leaving the store empty. */
  function Loaded(codec: Codec, f: Files, readable: bool): seq<Credential> {
    if f.main.None? || !readable then []
    else match codec.unmarshal(f.main.value)
      case None => []
      case Some(creds) => creds
  }

  // ---------------------------------------------------------------- the store

  function Bucket(index: map<bytes, seq<Credential>>, rpId: bytes): seq<Credential> {
    if rpId in index then index[rpId] else []
  }

  function Entry(index: map<bytes, Credential>, id: bytes): Option<Credential> {
    if id in index then Some(index[id]) else None
  }

  ghost predicate IndexesExact(creds: seq<Credential>, byRPID: map<bytes, seq<Credential>>,
                               byCredentialID: map<bytes, Credential>)
  {
    && (forall r :: Bucket(byRPID, r) == ByRP(creds, r))
    && (forall k :: Entry(byCredentialID, k) == LastById(creds, k))
  }

  class CredentialStorage {
    const codec: Codec
    var files: Files
    var credentials: seq<Credential>
    var byRPID: map<bytes, seq<Credential>>
    var byCredentialID: map<bytes, Credential>

    ghost predicate Valid()
      reads this
    {
      IndexesExact(credentials, byRPID, byCredentialID)
    }

    constructor (codec: Codec, files: Files, readable: bool)
      ensures Valid() && this.codec == codec && this.files == files
      ensures credentials == Loaded(codec, files, readable)
    {
      this.codec, this.files := codec, files;
      credentials, byRPID, byCredentialID := [], map[], map[];
      new;
      if files.main.Some? {
        var ok := load(readable);
      }
    }

    method load(readable: bool) returns (ok: bool)
      requires Valid() && files.main.Some?
      modifies this`credentials, this`byRPID, this`byCredentialID
      ensures Valid()
      ensures ok <==> readable && codec.unmarshal(files.main.value).Some?
      ensures credentials == if ok then codec.unmarshal(files.main.value).value else old(credentials)
    {
      if !readable {
        return false;
      }
      var parsed := codec.unmarshal(files.main.value);
      if parsed.None? {
        return false;
      }
      credentials := parsed.value;
      rebuildIndexes();
      return true;
    }

    method save(fault: Fault) returns (ok: bool)
      modifies this`files
      ensures files == Written(old(files), codec.marshal(credentials), fault)
      ensures ok <==> fault.NoFault?
    {
      var data := codec.marshal(credentials);
      match fault {
        case OpenFails => return false;
        case WriteFails(n) =>
          files := files.(tmp := Some(if n <= |data| then data[..n] else data));
          return false;
        case _ => files := files.(tmp := Some(data));
      }
      if fault.RenameFails? {
        return false;
      }
      files := Files(files.tmp, None);
      return true;
    }

    method rebuildIndexes()
      modifies this`byRPID, this`byCredentialID
      ensures Valid()
    {
      byRPID, byCredentialID := map[], map[];
      for i := 0 to |credentials|
        invariant IndexesExact(credentials[..i], byRPID, byCredentialID)
      {
        var cred := credentials[i];
        assert credentials[..i + 1][..i] == credentials[..i];
        ghost var oldRP, oldId := byRPID, byCredentialID;
        byRPID := byRPID[cred.rpId := Bucket(byRPID, cred.rpId) + [cred]];
        byCredentialID := byCredentialID[cred.credentialId := cred];
        forall r
          ensures Bucket(byRPID, r) == ByRP(credentials[..i + 1], r)
        {
          assert Bucket(oldRP, r) == ByRP(credentials[..i], r);
        }
        forall k
          ensures Entry(byCredentialID, k) == LastById(credentials[..i + 1], k)
        {
          assert Entry(oldId, k) == LastById(credentials[..i], k);
        }
      }
      assert credentials[..|credentials|] == credentials;
    }

    method Save(cred: Credential, fault: Fault) returns (ok: bool)
      requires Valid()
      modifies this
      ensures Valid()
      ensures credentials == Saved(old(credentials), cred)
      ensures files == Written(old(files), codec.marshal(credentials), fault)
      ensures ok <==> fault.NoFault?
    {
      var found := false;
      for i := 0 to |credentials|
        invariant credentials == old(credentials) && !found
        invariant forall j :: 0 <= j < i ==> KeyOf(credentials[j]) != KeyOf(cred)
      {
        var existing := credentials[i];
        if existing.rpId == cred.rpId && existing.userId == cred.userId {
          credentials := credentials[i := cred];
          found := true;
          break;
        }
      }
      if !found {
        credentials := credentials + [cred];
      }
      rebuildIndexes();
      ok := save(fault);
    }

    method GetByRPID(rpId: bytes) returns (r: seq<Credential>)
      requires Valid()
      ensures r == ByRP(credentials, rpId)
    {
      assert Bucket(byRPID, rpId) == ByRP(credentials, rpId);
      r := if rpId in byRPID then byRPID[rpId] else [];
    }

    method GetByCredentialID(id: bytes) returns (r: Option<Credential>)
      requires Valid()
      ensures r == LastById(credentials, id)
    {
      assert Entry(byCredentialID, id) == LastById(credentials, id);
      r := if id in byCredentialID then Some(byCredentialID[id]) else None;
    }

    /** Removing an ID that is not stored succeeds without touching the file. */
    method Delete(id: bytes, fault: Fault) returns (ok: bool)
      requires Valid()
      modifies this
      ensures Valid()
      ensures credentials == Without(old(credentials), id)
      ensures files == if LastById(old(credentials), id).None? then old(files)
                       else Written(old(files), codec.marshal(credentials), fault)
      ensures ok <==> LastById(old(credentials), id).None? || fault.NoFault?
    {
      assert Entry(byCredentialID, id) == LastById(credentials, id);
      if id !in byCredentialID {
        WithoutAbsent(credentials, id);
        return true;
      }
      var newCreds := [];
      for i := 0 to |credentials|
        invariant newCreds == Without(credentials[..i], id)
      {
        assert credentials[..i + 1][..i] == credentials[..i];
        if credentials[i].credentialId != id {
          newCreds := newCreds + [credentials[i]];
        }
      }
      assert credentials[..|credentials|] == credentials;
      credentials := newCreds;
      rebuildIndexes();
      ok := save(fault);
    }
  }

  // ---------------------------------------------------------------- list facts

  /** The entry found is the last with the ID, and one is found whenever one is there. */
  lemma {:induction false} LastByIdIsLast(creds: seq<Credential>, id: bytes) returns (i: nat)
    ensures LastById(creds, id).None? <==> i == |creds|
    ensures LastById(creds, id).None? ==> forall j :: 0 <= j < |creds| ==> creds[j].credentialId != id
    ensures LastById(creds, id).Some? ==>
              && i < |creds| && LastById(creds, id) == Some(creds[i]) && creds[i].credentialId == id
              && forall j :: i < j < |creds| ==> creds[j].credentialId != id
  {
    if creds == [] {
      i := 0;
    } else if creds[|creds| - 1].credentialId == id {
      i := |creds| - 1;
    } else {
      var front := creds[..|creds| - 1];
      i := LastByIdIsLast(front, id);
      assert forall j :: 0 <= j < |front| ==> creds[j] == front[j];
      if i == |front| {
        i := |creds|;
      }
    }
  }

  lemma {:induction false} WithoutAbsent(creds: seq<Credential>, id: bytes)
    ensures LastById(creds, id).None? <==> Without(creds, id) == creds
    ensures LastById(creds, id).None? <==> forall c :: c in creds ==> c.credentialId != id
    ensures |Without(creds, id)| <= |creds|
  {
    if creds != [] {
      var front, last := creds[..|creds| - 1], creds[|creds| - 1];
      WithoutAbsent(front, id);
      assert creds == front + [last];
      if last.credentialId == id {
        assert |Without(creds, id)| < |creds|;
      }
    }
  }

  lemma {:induction false} WithoutConcat(a: seq<Credential>, b: seq<Credential>, id: bytes)
    ensures Without(a + b, id) == Without(a, id) + Without(b, id)
  {
    if b == [] {
      assert a + b == a;
    } else {
      assert (a + b)[..|a + b| - 1] == a + b[..|b| - 1];
      WithoutConcat(a, b[..|b| - 1], id);
    }
  }

  lemma {:induction false} ByRPConcat(a: seq<Credential>, b: seq<Credential>, rpId: bytes)
    ensures ByRP(a + b, rpId) == ByRP(a, rpId) + ByRP(b, rpId)
  {
    if b == [] {
      assert a + b == a;
    } else {
      assert (a + b)[..|a + b| - 1] == a + b[..|b| - 1];
      ByRPConcat(a, b[..|b| - 1], rpId);
    }
  }

  lemma {:induction false} ByRPMembers(creds: seq<Credential>, rpId: bytes)
    ensures forall c :: c in ByRP(creds, rpId) <==> c in creds && c.rpId == rpId
  {
    if creds != [] {
      ByRPMembers(creds[..|creds| - 1], rpId);
      assert creds == creds[..|creds| - 1] + [creds[|creds| - 1]];
    }
  }

  lemma {:induction false} WithoutMembers(creds: seq<Credential>, id: bytes)
    ensures forall c :: c in Without(creds, id) <==> c in creds && c.credentialId != id
  {
    if creds != [] {
      WithoutMembers(creds[..|creds| - 1], id);
      assert creds == creds[..|creds| - 1] + [creds[|creds| - 1]];
    }
  }

  lemma SavedMembers(creds: seq<Credential>, c: Credential)
    ensures c in Saved(creds, c)
    ensures forall d :: d in Saved(creds, c) ==> d == c || d in creds
    ensures forall d :: d in creds && KeyOf(d) != KeyOf(c) ==> d in Saved(creds, c)
  {
    var i := First(creds, KeyOf(c));
    var s := Saved(creds, c);
    if i < |creds| {
      assert s[i] == c;
      forall d | d in creds && KeyOf(d) != KeyOf(c)
        ensures d in s
      {
        var j :| 0 <= j < |creds| && creds[j] == d;
        assert s[j] == d;
      }
    }
  }
}
